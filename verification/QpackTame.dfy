/** Which bytes are skipped as they are meant to be, and some that are not. */
module QpackTame {
  import opened Common
  import opened Words
  import opened QpackTokens
  import opened QpackValues
  import opened QpackSkip
  import opened QpackWrap
  import opened QpackRun

  // ---- what has been packed ----

  /** A complete value is skipped right wherever it lies. */
  lemma {:induction false} ReadIsTame(m: Memory, pt: nat)
    requires Placed(m) && pt <= |m.data| && Read(m.data[pt..]).Some?
    ensures TameSkip(m, pt)
    decreases |m.data| - pt, 0
  {
    hide Next, WrapsAt, ReadMany, ReadOpen, TameMany, TameOpen;
    CodeNextExact(m, pt);
    var (t, n) := Next(m.data[pt..]);
    DropTwice(m.data, pt, n);
    if t.Mark? && t.tp < QP_MAP0 {
      ManyAreTame(m, pt + n, t.tp - QP_ARRAY0);
    } else if t.Mark? && t.tp < QP_TRUE {
      ManyAreTame(m, pt + n, 2 * (t.tp - QP_MAP0));
    } else if t == Mark(QP_ARRAY_OPEN) {
      OpenIsTame(m, pt + n, false);
    } else if t == Mark(QP_MAP_OPEN) {
      OpenIsTame(m, pt + n, true);
    }
  }

  lemma {:induction false} ManyAreTame(m: Memory, pt: nat, k: nat)
    requires Placed(m) && pt <= |m.data| && ReadMany(m.data[pt..], k).Some?
    ensures TameMany(m, pt, k)
    decreases |m.data| - pt, 1, k
  {
    hide Read, Skip, TameSkip;
    if k > 0 {
      SkipRead(m.data[pt..]);
      DropTwice(m.data, pt, Skip(m.data[pt..]).1);
      ReadIsTame(m, pt);
      ManyAreTame(m, pt + Skip(m.data[pt..]).1, k - 1);
    }
  }

  lemma {:induction false} OpenIsTame(m: Memory, pt: nat, isMap: bool)
    requires Placed(m) && pt <= |m.data| && ReadOpen(m.data[pt..], isMap).Some?
    ensures TameOpen(m, pt, isMap)
    decreases |m.data| - pt, 2
  {
    hide Next, Read, Skip, SkipMany, ReadMany, ReadOpen, TameSkip, TameMany, TameOpen;
    var b := m.data[pt..];
    if b != [] && b[0] == CloseMark(isMap) {
      CloseIsTame(m, pt, isMap);
    } else {
      ReadOpenMore(b, isMap);
      ReadManyFirst(b, Group(isMap));
      ManyAreTame(m, pt, Group(isMap));
      SkipReadMany(b, Group(isMap));
      SkipRead(b);
      var l, all := Skip(b).1, SkipMany(b, Group(isMap));
      OneSkipped(b, Group(isMap));
      DropTwice(m.data, pt, l);
      DropTwice(m.data, pt, all);
      TameFirst(m, pt, Group(isMap));
      OpenIsTame(m, pt + all, isMap);
      OpenTame(m, pt, isMap);
    }
  }

  lemma CloseIsTame(m: Memory, pt: nat, isMap: bool)
    requires Placed(m) && pt < |m.data| && m.data[pt] == CloseMark(isMap)
    ensures TameOpen(m, pt, isMap)
  {
    hide SkipMany, TameMany;
    assert m.data[pt..][0] == CloseMark(isMap);
  }

  // ---- a guard for bytes that come from elsewhere ----

  /** Every length of 64 bits that could be read is below 2^63. */
  predicate SmallLengths(data: Bytes) {
    forall p :: 0 <= p <= |data| - 9 && data[p] == QP_RAW8 + 3 ==> FromLe(data[p + 1..p + 9]) < UINT64 / 2
  }

  /** Then, with the bytes in the lower half of the address space, everything is skipped right. */
  lemma SmallIsTame(m: Memory, pt: nat)
    requires m.base + |m.data| < UINT64 / 2 && SmallLengths(m.data) && pt <= |m.data|
    ensures Placed(m) && TameSkip(m, pt)
  {
    forall p: nat | p <= |m.data| ensures !WrapsAt(m, p) {
      SmallHead(m, p);
    }
    hide WrapsAt;
    NoneWraps(m, pt);
  }

  lemma SmallHead(m: Memory, p: nat)
    requires SmallLengths(m.data) && p <= |m.data|
    ensures var h := RawHead(m.data[p..]); h.Some? ==> p + h.value.0 <= |m.data| && h.value.1 < UINT64 / 2
  {
    hide FromLe;
    var b := m.data[p..];
    Spans();
    if RawHead(b).Some? && b[0] >= QP_RAW8 {
      assert b[0] == m.data[p];
      var w := Width(b[0] - QP_RAW8);
      assert b[1..1 + w] == m.data[p + 1..p + 1 + w];
    }
  }

  lemma {:induction false} NoneWraps(m: Memory, pt: nat)
    requires pt <= |m.data| && forall p: nat :: p <= |m.data| ==> !WrapsAt(m, p)
    ensures TameSkip(m, pt)
    decreases |m.data| - pt, 0
  {
    hide Next, WrapsAt, TameMany, TameOpen;
    var (t, n) := Next(m.data[pt..]);
    var tp := TypeOf(t);
    if QP_ARRAY0 <= tp < QP_MAP0 {
      NoneWrapsMany(m, pt + n, tp - QP_ARRAY0);
    } else if QP_MAP0 <= tp < QP_TRUE {
      NoneWrapsMany(m, pt + n, 2 * (tp - QP_MAP0));
    } else if tp == QP_ARRAY_OPEN {
      NoneWrapsOpen(m, pt + n, false);
    } else if tp == QP_MAP_OPEN {
      NoneWrapsOpen(m, pt + n, true);
    }
  }

  lemma {:induction false} NoneWrapsMany(m: Memory, pt: nat, k: nat)
    requires pt <= |m.data| && forall p: nat :: p <= |m.data| ==> !WrapsAt(m, p)
    ensures TameMany(m, pt, k)
    decreases |m.data| - pt, 1, k
  {
    hide WrapsAt, TameSkip, Skip;
    if k > 0 {
      NoneWraps(m, pt);
      NoneWrapsMany(m, pt + Skip(m.data[pt..]).1, k - 1);
    }
  }

  lemma {:induction false} NoneWrapsOpen(m: Memory, pt: nat, isMap: bool)
    requires pt <= |m.data| && forall p: nat :: p <= |m.data| ==> !WrapsAt(m, p)
    ensures TameOpen(m, pt, isMap)
    decreases |m.data| - pt, 2
  {
    hide WrapsAt, TameSkip, TameMany, Skip, SkipMany;
    NoneWraps(m, pt);
    var (tp, l) := Skip(m.data[pt..]);
    SkipMoves(m.data[pt..]);
    if tp != QP_END && tp != CloseMark(isMap) {
      NoneWrapsMany(m, pt + l, Group(isMap) - 1);
      NoneWrapsOpen(m, pt + l + SkipMany(m.data[pt + l..], Group(isMap) - 1), isMap);
    }
  }

  // ---- bytes that go wrong ----

  /** A raw header with the length 2^64 - 9. */
  const BACK: Bytes := [QP_RAW8 + 3, 247, 255, 255, 255, 255, 255, 255, 255]

  /** Wherever it stands, qp_next takes it for a string and leaves the cursor on it. */
  lemma NextStays(m: Memory, pt: nat)
    requires Placed(m) && pt <= |m.data| && BACK <= m.data[pt..]
    ensures CodeNext(m, pt) == (Wrapped(UINT64 - 9), pt)
    ensures Next(m.data[pt..]) == (Err, 9)
  {
    var b := m.data[pt..];
    assert b[..9] == BACK;
    assert b[0] == QP_RAW8 + 3 && b[1..9] == BACK[1..9];
    AlmostAll();
    NextOfHead(b);
    Modulo(m.base + pt + UINT64);
  }

  lemma AlmostAll()
    ensures FromLe(BACK[1..9]) == UINT64 - 9
  {
    var l := BACK[1..9];
    AllOnes(7);
    Spans();
    assert l[1..] == seq(7, _ => 255);
    assert Span(8) == 256 * Span(7);
  }

  lemma {:induction false} AllOnes(n: nat)
    ensures FromLe(seq(n, _ => 255)) == Span(n) - 1
  {
    if n > 0 {
      AllOnes(n - 1);
      assert seq(n, _ => 255)[1..] == seq(n - 1, _ => 255);
    }
  }

  /** Such a header in an open array is skipped again and again: qp_skip_next does not end. */
  lemma NeverEnds(m: Memory, n: nat)
    requires Placed(m) && [QP_ARRAY_OPEN] + BACK <= m.data
    ensures Run(m, true, Skipping(0, []), n + 1) == Skipping(1, [InArray])
    ensures !TameSkip(m, 0) && Skip(m.data).1 >= 10
  {
    hide CodeNext, Skip, TameSkip;
    assert m.data[..10] == [QP_ARRAY_OPEN] + BACK;
    assert m.data[0] == QP_ARRAY_OPEN && m.data[0..] == m.data;
    assert m.data[1..][..9] == BACK;
    FirstOpens(m);
    NextStays(m, 1);
    assert Step(m, true, Skipping(0, [])) == Skipping(1, [InArray]) by {
      assert [] + [InArray] == [InArray];
    }
    StaysThere(m, n);
    OpenIsNotTame(m);
  }

  lemma FirstOpens(m: Memory)
    requires Placed(m) && m.data != [] && m.data[0] == QP_ARRAY_OPEN
    ensures CodeNext(m, 0) == (Mark(QP_ARRAY_OPEN), 1) && Next(m.data) == (Mark(QP_ARRAY_OPEN), 1)
  {
    assert m.data[0..] == m.data;
  }

  lemma {:induction false} StaysThere(m: Memory, n: nat)
    requires Placed(m) && 1 <= |m.data| && BACK <= m.data[1..]
    ensures Run(m, true, Skipping(1, [InArray]), n) == Skipping(1, [InArray])
    decreases n
  {
    if n > 0 {
      hide CodeNext;
      NextStays(m, 1);
      assert Return(QP_RAW, 1, [InArray]) == Skipping(1, [InArray]);
      StaysThere(m, n - 1);
    }
  }

  lemma OpenIsNotTame(m: Memory)
    requires Placed(m) && m.data != [] && m.data[0] == QP_ARRAY_OPEN && BACK <= m.data[1..]
    ensures !TameSkip(m, 0) && Skip(m.data).1 >= 10
  {
    hide Next, CodeNext, WrapsAt, SkipOpen, TameOpen, SkipMany, TameMany;
    assert m.data[0..] == m.data;
    FirstOpens(m);
    NextStays(m, 1);
    CodeNextExact(m, 1);
    assert Skip(m.data[1..]) == (QP_ERR, 9);
    assert !TameSkip(m, 1);
    if TameOpen(m, 1, false) {
      OpenTame(m, 1, false);
    }
    OpenParts(m, 1, false);
  }
}
