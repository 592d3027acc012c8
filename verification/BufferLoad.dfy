/** Loading the buffer file: old slots are migrated, free slots are dropped, and the slots get a
    new size when that is asked for. */
module BufferLoad {
  import opened Arith
  import opened BufferFile
  import opened BufferMigrate
  import opened BufferSlots
  import opened Common
  import opened Files
  import opened Words

  /** What a slot of the file holds. */
  datatype Content = Spare | New(id: nat, points: seq<Point>) | Old(id: nat, points: seq<Point>, tail: Bytes)

  predicate IsContent(c: Content, size: nat) {
    match c
    case Spare => true
    case New(id, ps) => 0 < id <= MAX_ID && FitsIn(ps, size)
    case Old(id, ps, tail) => 0 < id <= MAX_ID && ArePoints(ps) && 12 + 16 * |ps| + |tail| == size
  }

  function SlotBytes(c: Content, size: nat): (b: Bytes)
    requires IsContent(c, size)
    ensures |b| == size
  {
    match c
    case Spare => Zeros(size)
    case New(id, ps) => Slot(id, ps, size)
    case Old(id, ps, tail) => OldSlot(id, ps, tail)
  }

  function IdOf(c: Content): nat {
    if c.Spare? then 0 else c.id
  }

  function PointsOf(c: Content): seq<Point> {
    if c.Spare? then [] else c.points
  }

  /** The points of a series do not leave an end mark in a slot of the new size. */
  predicate TooMany(ps: seq<Point>, size: nat, newSize: nat) {
    newSize < size && |ps| >= newSize / 16
  }

  /** A slot is read up to its end mark. */
  method ReadAll(slot: array<byte>, ghost ps: seq<Point>) returns (r: seq<Point>)
    requires slot.Length >= 16 && slot.Length % 8 == 0 && ReadPoints(slot[..][8..]) == Some(ps)
    ensures r == ps
  {
    hide FromLe;
    r := [];
    var pt := 8;
    var b := slot[..];
    while FromLe(b[pt..][..8]) != END_MARK
      invariant 8 <= pt <= |b| - 8
      invariant ReadPoints(b[pt..]).Some? && ps == r + ReadPoints(b[pt..]).value
      decreases |b| - pt
    {
      DropDrop(b, pt, 16);
      NotAtEnd(b[pt..]);
      r := r + [Point(FromLe(b[pt..][..8]), b[pt..][8..16])];
      pt := pt + 16;
    }
  }

  lemma DropDrop(b: Bytes, m: nat, n: nat)
    ensures m + n <= |b| ==> b[m..][n..] == b[m + n..]
  {}

  lemma NotAtEnd(b: Bytes)
    requires |b| >= 8 && ReadPoints(b).Some? && FromLe(b[..8]) != END_MARK
    ensures |b| >= 24 && ReadPoints(b[16..]).Some?
    ensures ReadPoints(b).value == [Point(FromLe(b[..8]), b[8..16])] + ReadPoints(b[16..]).value
  {}

  /** Every byte of the file belongs to a known slot, and no series has two. */
  ghost predicate KnownFile(file: Bytes, size: nat, contents: seq<Content>, live: set<nat>) {
    && IsSize(size) && size * |contents| <= |file| < size * (|contents| + 1)
    && (forall k :: 0 <= k < |contents| ==> IsContent(contents[k], size))
    && (forall k :: 0 <= k < |contents| ==> SlotHolds(file, size, k, contents[k]))
    && (forall k, l :: 0 <= k < l < |contents| && IdOf(contents[k]) in live ==> IdOf(contents[k]) != IdOf(contents[l]))
    && 0 !in live
  }

  ghost predicate SlotHolds(file: Bytes, size: nat, k: nat, c: Content)
    requires IsContent(c, size)
  {
    size * k + size <= |file| && file[size * k..size * k + size] == SlotBytes(c, size)
  }

  /** The slots of series read so far have found their place, and their points are in the new
      slots or have been handed over. */
  ghost predicate Moved(contents: seq<Content>, n: nat, live: set<nat>, size: nat, newSize: nat,
                        series: map<nat, Place>, handed: map<nat, seq<Point>>)
    requires n <= |contents|
  {
    && (forall id :: id in series ==> exists k :: 0 <= k < n && IdOf(contents[k]) == id && id in live)
    && (forall k :: 0 <= k < n && IdOf(contents[k]) in live ==> Arrived(contents[k], size, newSize, series, handed))
    && (forall id :: id in handed ==> id in series)
  }

  ghost predicate Arrived(c: Content, size: nat, newSize: nat, series: map<nat, Place>, handed: map<nat, seq<Point>>) {
    var id, ps := IdOf(c), PointsOf(c);
    && id in series
    && (if TooMany(ps, size, newSize) then series[id].points == [] && id in handed && handed[id] == ps
        else series[id].points == ps && id !in handed)
  }

  /** One more slot of a series is written. */
  lemma OneMore(out: Bytes, size: nat, series: map<nat, Place>, id: nat, ps: seq<Point>)
    requires Laid(out, size, series, []) && 0 < id <= MAX_ID && id !in series && FitsIn(ps, size)
    ensures Laid(out + Slot(id, ps, size), size, series[id := Place(|out|, ps)], [])
  {
    hide Slot;
    var more := out + Slot(id, ps, size);
    AddMultiple(|out|, 1, size);
    assert more[|out|..|out| + size] == Slot(id, ps, size);
    forall a | a in series ensures Stored(more, size, a, series[a]) && series[a].offset < |out| {
      assert Stored(out, size, a, series[a]);
      var o := series[a].offset;
      assert more[o..o + size] == out[o..o + size];
    }
  }

  // ---- one slot ----

  /** The first words of a slot tell the formats apart. */
  lemma FirstWords(c: Content, size: nat)
    requires IsSize(size) && IsContent(c, size)
    ensures var b := SlotBytes(c, size);
            && (FromLe(b[..4]) != 0 <==> c.Old?)
            && (!c.Old? ==> FromLe(b[4..8]) == IdOf(c))
  {
    hide FromLe, Le, EncPoints, ReadPoints;
    ZerosWord(4);
    Span8();
    var b := SlotBytes(c, size);
    match c
    case Spare => assert b[..4] == Zeros(4) && b[4..8] == Zeros(4);
    case New(id, ps) => ReadSlot(id, ps, size);
    case Old(id, ps, tail) =>
      LeRoundTrip(id, 4);
      assert b[..4] == Le(id, 4);
  }

  /** A slot in its new format; a spare one is left as it is. */
  method Renew(slot: array<byte>, ghost c: Content)
    requires IsSize(slot.Length) && IsContent(c, slot.Length) && slot[..] == SlotBytes(c, slot.Length)
    modifies slot
    ensures FromLe(slot[..][4..8]) == IdOf(c)
    ensures !c.Spare? ==> FitsIn(c.points, slot.Length) && slot[..] == Slot(c.id, c.points, slot.Length)
  {
    hide FromLe, Le, EncPoints, Slot, OldSlot, ReadPoints;
    ghost var size := slot.Length;
    FirstWords(c, size);
    if FromLe(slot[..][..4]) != 0 {
      Migrate(slot, c.id, c.points, c.tail);
      ReadSlot(c.id, c.points, size);
    }
  }

  /** The template for slots of another size: what lies behind a smaller slot are end marks. */
  ghost predicate TemplateReady(t: Bytes, size: nat, newSize: nat) {
    && |t| == newSize && IsSize(newSize)
    && (newSize > size ==> t[size..] == Marks(newSize - size))
    && (newSize < size ==> t[..4] == Zeros(4) && t[8..] == Marks(newSize - 8))
  }

  /** What is written for a series: its slot, wider, narrower, or an empty one. */
  method OutSlot(slot: array<byte>, template: array<byte>, newSize: nat, id: nat, ps: seq<Point>) returns (pt: Bytes)
    requires IsSize(slot.Length) && slot != template && template.Length == newSize && id <= MAX_ID
    requires FitsIn(ps, slot.Length) && slot[..] == Slot(id, ps, slot.Length)
    requires TemplateReady(template[..], slot.Length, newSize)
    modifies template
    ensures TemplateReady(template[..], slot.Length, newSize)
    ensures newSize == slot.Length ==> template[..] == old(template[..])
    ensures var kept := if TooMany(ps, slot.Length, newSize) then [] else ps;
            FitsIn(kept, newSize) && pt == Slot(id, kept, newSize)
  {
    hide Le, EncPoints, Slot, Put;
    var size := slot.Length;
    if newSize > size {
      PutFront(template[..], slot[..]);
      Copy(template, 0, slot[..]);
      SlotGrow(id, ps, size, newSize);
      pt := template[..];
    } else if newSize < size {
      if |ps| >= newSize / 16 {
        TemplateSlot(template[..], id, newSize);
        Copy(template, 4, Le(id, 4));
        pt := template[..];
      } else {
        SlotShrink(id, ps, size, newSize);
        pt := slot[..][..newSize];
      }
    } else {
      pt := slot[..];
    }
  }

  lemma PutFront(t: Bytes, d: Bytes)
    requires |d| <= |t|
    ensures Put(t, 0, d) == d + t[|d|..] && Put(t, 0, d)[|d|..] == t[|d|..]
  {}

  // ---- the file ----

  /** siridb_buffer_load.  `live` are the ids of series with numbers; what does not fit in a smaller
      slot is handed over to the shards. */
  method Load(buffer: Buffer, newSize: nat, live: set<nat>, ghost contents: seq<Content>)
      returns (handed: map<nat, seq<Point>>)
    requires IsSize(newSize) && KnownFile(buffer.file, buffer.size, contents, live)
    modifies buffer
    ensures buffer.Valid() && buffer.size == newSize && buffer.empty == []
    ensures Moved(contents, |contents|, live, old(buffer.size), newSize, buffer.series, handed)
    ensures Delivered(contents, live, old(buffer.size), newSize, buffer.series, handed)
  {
    hide IsSize, Laid, Moved, Delivered, KnownFile, Slot, SlotBytes, TemplateReady, Shape, IsContent, FitsIn;
    var size, file := buffer.size, buffer.file;
    Count(file, size, contents, live);
    SizePositive(size);
    SizeByEight(newSize);
    buffer.size, buffer.len := newSize, newSize / 16;
    var template := new byte[newSize];
    InitTemplate(template);
    FreshTemplate(template[..], size, newSize);
    var out, i, num := [], 0, |file| / size;
    var series: map<nat, Place> := map[];
    handed := map[];
    NothingYet(contents, live, size, newSize);
    while i < num
      invariant i <= num && buffer.size == newSize && buffer.len == newSize / 16
      invariant Laid(out, newSize, series, []) && template.Length == newSize
      invariant fresh(template) && TemplateReady(template[..], size, newSize)
      invariant newSize == size ==> Shape(template[..], newSize)
      invariant Moved(contents, i, live, size, newSize, series, handed)
    {
      KnownSlot(file, size, contents, live, i);
      var slot := ReadSlotAt(file, size, i);
      var mine, id, ps, pt := LoadSlot(slot, template, newSize, live, contents[i]);
      if mine {
        NotYet(contents, i, live, size, newSize, series, handed);
        MovedOn(contents, i, live, size, newSize, series, handed, |out|);
        OneMore(out, newSize, series, id, if TooMany(ps, size, newSize) then [] else ps);
        series := series[id := Place(|out|, if TooMany(ps, size, newSize) then [] else ps)];
        handed := if TooMany(ps, size, newSize) then handed[id := ps] else handed;
        out := out + pt;
      } else {
        Passed(contents, i, live, size, newSize, series, handed);
      }
      i := i + 1;
    }
    if newSize != size {
      InitTemplate(template);
      ReadyTemplate(template[..], newSize);
    }
    assert Shape(template[..], newSize);
    AllDelivered(contents, live, size, newSize, series, handed);
    buffer.file, buffer.template, buffer.empty, buffer.series := out, template, [], series;
    AllReady(buffer);
  }

  lemma SizeByEight(size: nat)
    requires IsSize(size)
    ensures size % 8 == 0 && size >= 8
  {
    assert size == 8 * (64 * (size / 512)) + 0;
    Divided(size, 8, 64 * (size / 512), 0);
  }

  /** Where the points of the live series are: in a smaller slot that has no room for them and an end
      mark they have all been handed over, otherwise they are all in the new slot. */
  ghost predicate Delivered(contents: seq<Content>, live: set<nat>, size: nat, newSize: nat,
                            series: map<nat, Place>, handed: map<nat, seq<Point>>) {
    && (forall id :: id in series || id in handed ==> exists k :: 0 <= k < |contents| && IdOf(contents[k]) == id && id in live)
    && forall k :: 0 <= k < |contents| && IdOf(contents[k]) in live ==>
         var id, ps := IdOf(contents[k]), PointsOf(contents[k]);
         && id in series
         && if newSize < size && 16 * |ps| + 16 > newSize
            then series[id].points == [] && id in handed && handed[id] == ps
            else series[id].points == ps && id !in handed
  }

  lemma AllDelivered(contents: seq<Content>, live: set<nat>, size: nat, newSize: nat,
                     series: map<nat, Place>, handed: map<nat, seq<Point>>)
    requires IsSize(newSize) && Moved(contents, |contents|, live, size, newSize, series, handed)
    ensures Delivered(contents, live, size, newSize, series, handed)
  {
    assert newSize % 16 == 0;
    forall k | 0 <= k < |contents| && IdOf(contents[k]) in live
      ensures Arrived(contents[k], size, newSize, series, handed)
    {}
  }

  lemma AllReady(buffer: Buffer)
    requires IsSize(buffer.size) && buffer.len == buffer.size / 16 && Shape(buffer.template[..], buffer.size)
    requires Laid(buffer.file, buffer.size, buffer.series, buffer.empty)
    ensures buffer.Valid()
  {}

  method ReadSlotAt(file: Bytes, size: nat, i: nat) returns (slot: array<byte>)
    requires size * i + size <= |file|
    ensures fresh(slot) && slot.Length == size && slot[..] == file[size * i..size * i + size]
  {
    var b := file[size * i..size * i + size];
    slot := new byte[size](j requires 0 <= j < |b| => b[j]);
  }

  /** A slot that has been read; `mine` when it belongs to a series. */
  method LoadSlot(slot: array<byte>, template: array<byte>, newSize: nat, live: set<nat>, ghost c: Content)
      returns (mine: bool, id: nat, ps: seq<Point>, pt: Bytes)
    requires IsSize(slot.Length) && IsContent(c, slot.Length) && slot[..] == SlotBytes(c, slot.Length)
    requires slot != template && template.Length == newSize && TemplateReady(template[..], slot.Length, newSize)
    requires IdOf(c) in live ==> !c.Spare?
    modifies slot, template
    ensures TemplateReady(template[..], slot.Length, newSize)
    ensures newSize == slot.Length ==> template[..] == old(template[..])
    ensures mine <==> IdOf(c) in live
    ensures mine ==>
              var kept := if TooMany(ps, slot.Length, newSize) then [] else ps;
              && id == IdOf(c) && ps == PointsOf(c) && 0 < id <= MAX_ID
              && FitsIn(kept, newSize) && pt == Slot(id, kept, newSize)
  {
    hide FromLe, Slot, OldSlot, ReadPoints, TemplateReady;
    Renew(slot, c);
    id := FromLe(slot[..][4..8]);
    mine, ps, pt := id in live, [], [];
    if mine {
      ReadSlot(id, c.points, slot.Length);
      ps := ReadAll(slot, c.points);
      pt := OutSlot(slot, template, newSize, id, ps);
    }
  }

  predicate Shape(t: Bytes, size: nat) {
    |t| == size >= 8 && t[..4] == Zeros(4) && t[8..] == Marks(size - 8)
  }

  lemma ReadyTemplate(t: Bytes, size: nat)
    requires IsSize(size) && t == Zeros(4) + Marks(size - 4)
    ensures Shape(t, size)
  {}

  lemma FreshTemplate(t: Bytes, size: nat, newSize: nat)
    requires IsSize(size) && IsSize(newSize) && t == Zeros(4) + Marks(newSize - 4)
    ensures TemplateReady(t, size, newSize) && Shape(t, newSize)
  {}

  lemma Count(file: Bytes, size: nat, contents: seq<Content>, live: set<nat>)
    requires KnownFile(file, size, contents, live)
    ensures IsSize(size) && |file| / size == |contents|
  {
    Divided(|file|, size, |contents|, |file| - size * |contents|);
  }

  lemma KnownSlot(file: Bytes, size: nat, contents: seq<Content>, live: set<nat>, i: nat)
    requires KnownFile(file, size, contents, live) && i < |contents|
    ensures size * i + size <= |file| && IsContent(contents[i], size)
    ensures file[size * i..size * i + size] == SlotBytes(contents[i], size)
    ensures IdOf(contents[i]) in live ==> !contents[i].Spare?
    ensures forall k :: 0 <= k < i && IdOf(contents[k]) in live ==> IdOf(contents[k]) != IdOf(contents[i])
  {
    assert SlotHolds(file, size, i, contents[i]);
  }

  lemma NothingYet(contents: seq<Content>, live: set<nat>, size: nat, newSize: nat)
    requires IsSize(newSize)
    ensures Moved(contents, 0, live, size, newSize, map[], map[]) && Laid([], newSize, map[], [])
  {}

  /** A series that has a place was met before. */
  lemma NotYet(contents: seq<Content>, i: nat, live: set<nat>, size: nat, newSize: nat,
               series: map<nat, Place>, handed: map<nat, seq<Point>>)
    requires i < |contents| && Moved(contents, i, live, size, newSize, series, handed)
    requires forall k :: 0 <= k < i && IdOf(contents[k]) in live ==> IdOf(contents[k]) != IdOf(contents[i])
    ensures IdOf(contents[i]) !in series && IdOf(contents[i]) !in handed
  {}

  lemma MovedOn(contents: seq<Content>, i: nat, live: set<nat>, size: nat, newSize: nat,
                series: map<nat, Place>, handed: map<nat, seq<Point>>, offset: nat)
    requires i < |contents| && Moved(contents, i, live, size, newSize, series, handed)
    requires IdOf(contents[i]) in live && IdOf(contents[i]) !in series && IdOf(contents[i]) !in handed
    ensures var id, ps := IdOf(contents[i]), PointsOf(contents[i]);
            if TooMany(ps, size, newSize) then
              Moved(contents, i + 1, live, size, newSize, series[id := Place(offset, [])], handed[id := ps])
            else
              Moved(contents, i + 1, live, size, newSize, series[id := Place(offset, ps)], handed)
  {
    hide TooMany;
    var id, ps := IdOf(contents[i]), PointsOf(contents[i]);
    var many := TooMany(ps, size, newSize);
    var more := series[id := Place(offset, if many then [] else ps)];
    var all := if many then handed[id := ps] else handed;
    forall k | 0 <= k < i && IdOf(contents[k]) in live ensures Arrived(contents[k], size, newSize, more, all) {
      assert Arrived(contents[k], size, newSize, series, handed);
    }
    assert Arrived(contents[i], size, newSize, more, all);
    forall a | a in more ensures exists k :: 0 <= k < i + 1 && IdOf(contents[k]) == a && a in live {
      if a == id {
        assert IdOf(contents[i]) == a;
      }
    }
  }

  lemma Passed(contents: seq<Content>, i: nat, live: set<nat>, size: nat, newSize: nat,
               series: map<nat, Place>, handed: map<nat, seq<Point>>)
    requires i < |contents| && Moved(contents, i, live, size, newSize, series, handed)
    requires IdOf(contents[i]) !in live
    ensures Moved(contents, i + 1, live, size, newSize, series, handed)
  {}
}
