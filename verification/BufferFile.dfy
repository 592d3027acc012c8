/** The buffer file as a whole: which slots belong to series and which are free. */
module BufferFile {
  import opened Arith
  import opened BufferMigrate
  import opened BufferSlots
  import opened Common
  import opened Files
  import opened Words

  const BUFFER_CACHE: nat := 64

  /** Where a series has its slot, and the points in it. */
  datatype Place = Place(offset: nat, points: seq<Point>)

  /** A slot of the file. */
  predicate Inside(file: Bytes, size: nat, offset: nat)
    requires size > 0
  {
    offset % size == 0 && offset + size <= |file|
  }

  ghost predicate Stored(file: Bytes, size: nat, id: nat, p: Place) {
    && IsSize(size) && 0 < id <= MAX_ID && Inside(file, size, p.offset) && FitsIn(p.points, size)
    && file[p.offset..p.offset + size] == Slot(id, p.points, size)
  }

  /** Every series has a slot of its own with its points; the free slots are other ones. */
  ghost predicate Laid(file: Bytes, size: nat, series: map<nat, Place>, empty: seq<nat>) {
    && IsSize(size) && |file| % size == 0
    && (forall id :: id in series ==> Stored(file, size, id, series[id]))
    && (forall a, b :: a in series && b in series && a != b ==> series[a].offset != series[b].offset)
    && (forall i :: 0 <= i < |empty| ==> Inside(file, size, empty[i]))
    && (forall i, j :: 0 <= i < j < |empty| ==> empty[i] != empty[j])
    && (forall i, id :: 0 <= i < |empty| && id in series ==> empty[i] != series[id].offset)
  }

  /** Different slots do not overlap. */
  lemma SlotsApart(size: nat, a: nat, b: nat)
    requires size > 0 && a % size == 0 && b % size == 0 && a != b
    ensures a + size <= b || b + size <= a
  {
    var d := a / size - b / size;
    assert a - b == size * d by {
      assert a == size * (a / size) && b == size * (b / size);
      assert size * d == size * (a / size) - size * (b / size);
    }
    FarMultiple(size, d);
  }

  /** Slots handed out or free are pairwise at least `size` apart and inside the file. */
  lemma LaidApart(file: Bytes, size: nat, series: map<nat, Place>, empty: seq<nat>, a: nat, b: nat)
    requires Laid(file, size, series, empty) && a in series && b in series && a != b
    ensures var o, u := series[a].offset, series[b].offset;
            o + size <= |file| && u + size <= |file| && (o + size <= u || u + size <= o)
  {
    assert Stored(file, size, a, series[a]) && Stored(file, size, b, series[b]);
    SlotsApart(size, series[a].offset, series[b].offset);
  }

  /** Writing inside one slot leaves the others alone. */
  lemma OtherSlot(file: Bytes, size: nat, o: nat, at: nat, d: Bytes, other: nat)
    requires size > 0 && Inside(file, size, o) && Inside(file, size, other) && o != other
    requires o <= at && at + |d| <= o + size
    ensures |WriteAt(file, at, d)| == |file|
    ensures WriteAt(file, at, d)[other..other + size] == file[other..other + size]
  {
    SlotsApart(size, o, other);
    var w := WriteAt(file, at, d);
    assert w == file[..at] + d + file[at + |d|..];
  }

  /** One series is written anew; its slot was its own or a free one. */
  lemma Rewritten(file: Bytes, size: nat, series: map<nat, Place>, empty: seq<nat>, id: nat, at: nat, d: Bytes, p: Place)
    requires Laid(file, size, series, empty) && Inside(file, size, p.offset)
    requires p.offset <= at && at + |d| <= p.offset + size
    requires Stored(WriteAt(file, at, d), size, id, p)
    requires forall a :: a in series && a != id ==> series[a].offset != p.offset
    requires forall i :: 0 <= i < |empty| ==> empty[i] != p.offset
    ensures Laid(WriteAt(file, at, d), size, series[id := p], empty)
  {
    hide Slot, WriteAt;
    var w := WriteAt(file, at, d);
    assert |w| == |file| by { WriteLength(file, at, d); }
    forall a | a in series && a != id ensures Stored(w, size, a, series[a]) {
      assert Stored(file, size, a, series[a]);
      OtherSlot(file, size, p.offset, at, d, series[a].offset);
    }
  }

  lemma WriteLength(file: Bytes, at: nat, d: Bytes)
    requires at + |d| <= |file|
    ensures |WriteAt(file, at, d)| == |file|
  {}

  /** What is read back where it was written. */
  lemma WrittenSlot(file: Bytes, o: nat, d: Bytes)
    requires o + |d| <= |file|
    ensures WriteAt(file, o, d)[o..o + |d|] == d
  {}

  /** A write inside a slot, seen in the slot. */
  lemma WrittenInside(file: Bytes, o: nat, size: nat, at: nat, d: Bytes)
    requires o + size <= |file| && at + |d| <= size
    ensures var b := file[o..o + size];
            WriteAt(file, o + at, d)[o..o + size] == b[..at] + d + b[at + |d|..]
  {
    var w := WriteAt(file, o + at, d);
    assert w == file[..o + at] + d + file[o + at + |d|..];
    var b := file[o..o + size];
    assert file[..o + at] == file[..o] + b[..at];
    assert file[o + at + |d|..] == b[at + |d|..] + file[o + size..];
    assert w == file[..o] + (b[..at] + d + b[at + |d|..]) + file[o + size..];
  }

  class Buffer {
    var size: nat
    var len: nat
    var file: Bytes
    var template: array<byte>
    var empty: seq<nat>
    var series: map<nat, Place>

    ghost predicate Ready()
      reads this, template
    {
      && IsSize(size) && len == size / 16 && template.Length == size
      && template[..][..4] == Zeros(4) && template[..][8..] == Marks(size - 8)
    }

    ghost predicate Valid()
      reads this, template
    {
      Ready() && Laid(file, size, series, empty)
    }

    /** siridb_buffer_write_empty */
    method WriteEmpty(id: nat, offset: nat)
      requires Ready() && 0 < id <= MAX_ID && offset <= |file|
      modifies this`file, template
      ensures Ready() && file == WriteAt(old(file), offset, Slot(id, [], size))
    {
      hide Put, WriteAt, Le;
      TemplateSlot(template[..], id, size);
      Copy(template, 4, Le(id, 4));
      file := WriteAt(file, offset, template[..]);
    }

    /** siridb_buffer_write_point, when the point is already counted: the series has room. */
    method WritePoint(id: nat, p: Point)
      requires Valid() && id in series && IsPoint(p) && |series[id].points| + 1 < len
      modifies this`file, this`series
      ensures Valid()
      ensures series == old(series)[id := Place(old(series[id].offset), old(series[id].points) + [p])]
    {
      hide Slot, WriteAt, EncPoint, Laid;
      ghost var q := series[id];
      LaidStored(file, size, series, empty, id);
      SlotAppend(id, q.points, p, size);
      var at := 8 + 16 * |series[id].points|;
      WrittenInside(file, q.offset, size, at, EncPoint(p));
      ghost var r := Place(q.offset, q.points + [p]);
      WriteLength(file, q.offset + at, EncPoint(p));
      LaidOthers(file, size, series, empty, id);
      Rewritten(file, size, series, empty, id, q.offset + at, EncPoint(p), r);
      file := WriteAt(file, series[id].offset + at, EncPoint(p));
      series := series[id := Place(series[id].offset, series[id].points + [p])];
    }

    /** siridb_series_add_point: the points of a series that has no more room are handed over to
        the shards. */
    method AddPoint(id: nat, p: Point) returns (handed: Option<seq<Point>>)
      requires Valid() && id in series && IsPoint(p)
      modifies this`file, this`series, template
      ensures Valid()
      ensures var q := old(series[id]);
              && handed == (if |q.points| + 1 == size / 16 then Some(q.points + [p]) else None)
              && series == old(series)[id := Place(q.offset, if handed.Some? then [] else q.points + [p])]
    {
      hide Slot, WriteAt, EncPoint, Laid;
      LaidStored(file, size, series, empty, id);
      if |series[id].points| + 1 == len {
        handed := Some(series[id].points + [p]);
        Empty(id, series[id].offset, empty);
      } else {
        handed := None;
        WritePoint(id, p);
      }
    }

    /** The series gets an empty slot: its own, or one that is not in the list any more. */
    method Empty(id: nat, offset: nat, ghost left: seq<nat>)
      requires Ready() && Laid(file, size, series, left) && empty == left
      requires 0 < id <= MAX_ID && Inside(file, size, offset)
      requires forall a :: a in series && a != id ==> series[a].offset != offset
      requires forall i :: 0 <= i < |left| ==> left[i] != offset
      modifies this`file, this`series, template
      ensures Valid() && series == old(series)[id := Place(offset, [])] && |file| == |old(file)|
    {
      hide Slot, WriteAt, Laid;
      WrittenSlot(file, offset, Slot(id, [], size));
      WriteLength(file, offset, Slot(id, [], size));
      Rewritten(file, size, series, left, id, offset, Slot(id, [], size), Place(offset, []));
      WriteEmpty(id, offset);
      series := series[id := Place(offset, [])];
    }

    /** siridb_buffer_new_series: by buffer__use_empty when there is a free slot, otherwise by
        buffer__create_new. */
    method NewSeries(id: nat)
      requires Valid() && 0 < id <= MAX_ID && id !in series
      modifies this, template
      ensures Valid() && size == old(size) && template == old(template) && id in series
      ensures series == old(series)[id := Place(series[id].offset, [])]
    {
      if |empty| > 0 {
        UseEmpty(id);
      } else {
        CreateNew(id);
      }
    }

    /** buffer__use_empty: vec_pop takes the last free slot. */
    method UseEmpty(id: nat)
      requires Valid() && 0 < id <= MAX_ID && id !in series && empty != []
      modifies this`file, this`series, this`empty, template
      ensures Valid() && series == old(series)[id := Place(old(empty)[|old(empty)| - 1], [])]
    {
      hide Laid;
      var offset := empty[|empty| - 1];
      TakeLast(file, size, series, empty);
      empty := empty[..|empty| - 1];
      Empty(id, offset, empty);
    }

    /** buffer__create_new: the file grows by BUFFER_CACHE slots, of which the series gets the
        first and the others become free. */
    method CreateNew(id: nat)
      requires Valid() && 0 < id <= MAX_ID && id !in series && empty == []
      modifies this`file, this`series, this`empty, template
      ensures Valid() && series == old(series)[id := Place(|old(file)|, [])]
      ensures |file| == |old(file)| + size * 64 && |empty| == 63
    {
      hide Laid, Slot, WriteAt;
      ghost var was := file;
      var offset := |file|;
      WriteEmpty(id, offset);
      var bufferPos := offset + size * BUFFER_CACHE;
      AppendSlot(was, Slot(id, [], size));
      file := file + Zeros(bufferPos - |file|);
      FileGrown(was, size, series, id, file);
      series := series[id := Place(offset, [])];
      FreeSlots(offset, bufferPos);
    }

    /** The loop of buffer__create_new: the slots between offset and end become free. */
    method FreeSlots(offset: nat, end: nat)
      requires Valid() && empty == [] && offset % size == 0 && end == |file| == offset + size * BUFFER_CACHE
      requires forall a :: a in series ==> series[a].offset <= offset
      modifies this`empty
      ensures Valid() && |empty| == BUFFER_CACHE - 1
    {
      hide Laid, IsSize;
      var bufferPos := end - size;
      ghost var k := BUFFER_CACHE - 1;
      SizePositive(size);
      while bufferPos > offset
        invariant Laid(file, size, series, empty) && Ready()
        invariant 0 <= k == BUFFER_CACHE - 1 - |empty| && bufferPos == offset + size * k
        invariant forall i :: 0 <= i < |empty| ==> empty[i] > bufferPos
        decreases bufferPos
      {
        AddMultiple(offset, k, size);
        Before(offset, size, k);
        AddFree(file, size, series, empty, bufferPos);
        empty := empty + [bufferPos];
        bufferPos := bufferPos - size;
        k := k - 1;
      }
      Before(offset, size, k);
    }

    /** A dropped series gives its slot back. */
    method Drop(id: nat)
      requires Valid() && id in series
      modifies this`series, this`empty
      ensures Valid() && series == old(series) - {id} && empty == old(empty) + [old(series)[id].offset]
    {
      empty := empty + [series[id].offset];
      series := series - {id};
    }
  }

  lemma TakeLast(file: Bytes, size: nat, series: map<nat, Place>, empty: seq<nat>)
    requires Laid(file, size, series, empty) && empty != []
    ensures var n := |empty| - 1;
            && Laid(file, size, series, empty[..n]) && Inside(file, size, empty[n])
            && (forall a :: a in series ==> series[a].offset != empty[n])
            && (forall i :: 0 <= i < n ==> empty[..n][i] != empty[n])
  {}

  lemma AppendSlot(file: Bytes, slot: Bytes)
    ensures WriteAt(file, |file|, slot) == file + slot
  {}

  lemma LaidStored(file: Bytes, size: nat, series: map<nat, Place>, empty: seq<nat>, id: nat)
    requires Laid(file, size, series, empty) && id in series
    ensures Stored(file, size, id, series[id])
    ensures forall a :: a in series && a != id ==> series[a].offset != series[id].offset
    ensures forall i :: 0 <= i < |empty| ==> empty[i] != series[id].offset
  {}

  lemma LaidOthers(file: Bytes, size: nat, series: map<nat, Place>, empty: seq<nat>, id: nat)
    requires Laid(file, size, series, empty) && id in series
    ensures forall a :: a in series && a != id ==> series[a].offset != series[id].offset
  {}

  lemma TemplateSlot(t: Bytes, id: nat, size: nat)
    requires IsSize(size) && |t| == size && t[..4] == Zeros(4) && t[8..] == Marks(size - 8) && id <= MAX_ID
    ensures Put(t, 4, Le(id, 4)) == Slot(id, [], size)
    ensures var u := Put(t, 4, Le(id, 4)); u[..4] == Zeros(4) && u[8..] == Marks(size - 8)
  {
    hide Le;
    assert EncPoints([]) == [];
  }

  lemma FileGrown(was: Bytes, size: nat, series: map<nat, Place>, id: nat, file: Bytes)
    requires Laid(was, size, series, []) && 0 < id <= MAX_ID && id !in series
    requires file == was + Slot(id, [], size) + Zeros(size * (BUFFER_CACHE - 1))
    ensures Laid(file, size, series[id := Place(|was|, [])], [])
    ensures forall a :: a in series ==> series[a].offset < |was|
    ensures |was| % size == 0
  {
    hide Slot;
    AddMultiple(|was|, BUFFER_CACHE, size);
    assert |file| == |was| + size * BUFFER_CACHE;
    assert file[|was|..|was| + size] == Slot(id, [], size);
    forall a | a in series ensures Stored(file, size, a, series[a]) && series[a].offset < |was| {
      assert Stored(was, size, a, series[a]);
      var o := series[a].offset;
      assert file[o..o + size] == was[o..o + size];
    }
  }

  lemma AddFree(file: Bytes, size: nat, series: map<nat, Place>, empty: seq<nat>, pos: nat)
    requires Laid(file, size, series, empty) && Inside(file, size, pos)
    requires forall a :: a in series ==> series[a].offset < pos
    requires forall i :: 0 <= i < |empty| ==> empty[i] > pos
    ensures Laid(file, size, series, empty + [pos])
  {}

  lemma SizePositive(size: nat)
    requires IsSize(size)
    ensures size > 0
  {}

  /** Slot k behind offset. */
  lemma Before(offset: nat, size: nat, k: nat)
    requires size > 0
    ensures offset + size * k > offset <==> k > 0
    ensures k > 0 ==> size * (k - 1) == size * k - size
    ensures 0 < k < BUFFER_CACHE ==> offset + size * k + size <= offset + size * BUFFER_CACHE
  {
    FarMultiple(size, k);
    OneLess(size, k);
    AtMost(size, k + 1, BUFFER_CACHE);
    OneLess(size, k + 1);
  }

  lemma OneLess(a: nat, k: nat)
    ensures a * (k - 1) == a * k - a
  {}

  lemma AtMost(a: nat, j: nat, k: nat)
    ensures j <= k ==> a * j <= a * k
  {
    if j <= k {
      assert a * k == a * j + a * (k - j);
    }
  }
}
