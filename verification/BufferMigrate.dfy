/** Writing slots: the template of an empty one, and the migration of old ones in place. */
module BufferMigrate {
  import opened BufferSlots
  import opened Common
  import opened Files
  import opened Words

  function Put(b: Bytes, at: nat, d: Bytes): (r: Bytes)
    requires at + |d| <= |b|
    ensures |r| == |b|
  {
    b[..at] + d + b[at + |d|..]
  }

  function Down(b: Bytes, to: nat, n: nat): (r: Bytes)
    requires to + 4 + n <= |b|
    ensures |r| == |b|
  {
    b[..to] + b[to + 4..to + 4 + n] + b[to + n..]
  }

  function Filled(b: Bytes, from: nat): (r: Bytes)
    requires from <= |b|
    ensures |r| == |b|
  {
    b[..from] + Marks(|b| - from)
  }

  /** memcpy */
  method Copy(buf: array<byte>, at: nat, d: Bytes)
    requires at + |d| <= buf.Length
    modifies buf
    ensures buf[..] == Put(old(buf[..]), at, d)
  {
    forall i | 0 <= i < |d| {
      buf[at + i] := d[i];
    }
  }

  /** memmove by four bytes towards the start */
  method MoveDown(buf: array<byte>, to: nat, n: nat)
    requires to + 4 + n <= buf.Length
    modifies buf
    ensures buf[..] == Down(old(buf[..]), to, n)
  {
    forall i | 0 <= i < n {
      buf[to + i] := buf[to + 4 + i];
    }
  }

  /** End marks from some place to the end. */
  method FillMarks(buf: array<byte>, from: nat)
    requires from <= buf.Length && (buf.Length - from) % 8 == 0
    modifies buf
    ensures buf[..] == Filled(old(buf[..]), from)
  {
    var npt := from;
    while npt < buf.Length
      invariant from <= npt <= buf.Length && (npt - from) % 8 == 0
      invariant forall i :: from <= i < npt ==> buf[i] == 255
      invariant forall i :: 0 <= i < from ==> buf[i] == old(buf[i])
    {
      forall i | 0 <= i < 8 {
        buf[npt + i] := 255;
      }
      npt := npt + 8;
    }
  }

  /** buffer__init_template */
  method InitTemplate(template: array<byte>)
    requires template.Length % 8 == 0 && template.Length >= 8
    modifies template
    ensures template[..] == Zeros(4) + Marks(template.Length - 4)
  {
    FillMarks(template, 0);
    Copy(template, 0, Zeros(4));
    assert template[..] == Put(Filled(old(template[..]), 0), 0, Zeros(4));
  }

  /** buffer__migrate_to_new: a slot is rewritten in place. */
  method Migrate(slot: array<byte>, ghost id: nat, ghost ps: seq<Point>, ghost tail: Bytes)
    requires IsSize(slot.Length) && id <= MAX_ID && ArePoints(ps) && slot[..] == OldSlot(id, ps, tail)
    modifies slot
    ensures FitsIn(ps, slot.Length) && slot[..] == Slot(id, ps, slot.Length)
  {
    hide Le, FromLe, EncPoints, OldSlot, Slot, Put, Down, Filled;
    OldFields(id, ps, tail);
    Migrated(id, ps, tail);
    var seriesId, num := slot[..][..4], FromLe(slot[..][4..12]);
    Copy(slot, 0, Zeros(4));
    Copy(slot, 4, seriesId);
    MoveDown(slot, 8, num * 16);
    FillMarks(slot, 8 + num * 16);
  }

  lemma Migrated(id: nat, ps: seq<Point>, tail: Bytes)
    requires id <= MAX_ID && ArePoints(ps) && FitsIn(ps, |OldSlot(id, ps, tail)|)
    ensures var b := OldSlot(id, ps, tail);
            Filled(Down(Put(Put(b, 0, Zeros(4)), 4, b[..4]), 8, |ps| * 16), 8 + |ps| * 16) == Slot(id, ps, |b|)
  {
    hide Le, EncPoints;
    var b := OldSlot(id, ps, tail);
    var b1 := Put(b, 0, Zeros(4));
    var b2 := Put(b1, 4, b[..4]);
    var b3 := Down(b2, 8, |ps| * 16);
    assert b1[..4] == Zeros(4) && b[..4] == Le(id, 4);
    assert b2[..8] == Zeros(4) + Le(id, 4);
    assert b2[12..12 + |ps| * 16] == b[12..12 + |ps| * 16] == EncPoints(ps);
    assert b3[..8 + |ps| * 16] == Zeros(4) + Le(id, 4) + EncPoints(ps);
  }

  lemma OldFields(id: nat, ps: seq<Point>, tail: Bytes)
    requires id <= MAX_ID && ArePoints(ps) && |ps| <= END_MARK
    ensures var b := OldSlot(id, ps, tail);
            && b[..4] == Le(id, 4) && FromLe(b[4..12]) == |ps| && b[12..12 + 16 * |ps|] == EncPoints(ps)
            && (|b| % 8 == 0 ==> FitsIn(ps, |b|))
  {
    hide Le, FromLe, EncPoints;
    var b := OldSlot(id, ps, tail);
    Span8();
    LeRoundTrip(|ps|, 8);
    assert b[4..12] == Le(|ps|, 8);
  }

}
