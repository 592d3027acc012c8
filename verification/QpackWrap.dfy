/** qp_next and qp_skip_next with the addresses they compute: a length of 64 bits can carry the sum
    of cursor and length past the last address, and the check against the end then passes. */
module QpackWrap {
  import opened Common
  import opened Words
  import opened QpackTokens
  import opened QpackValues
  import opened QpackSkip

  /** The bytes of an unpacker and their address; a cursor is kept relative to it. */
  datatype Memory = Memory(base: nat, data: Bytes)

  /** The bytes do not lie at the very end of the address space. */
  predicate Placed(m: Memory) {
    m.base + |m.data| + 8 < UINT64
  }

  /** Where the string of a raw header at the start of b begins, and its length. */
  function RawHead(b: Bytes): (r: Option<(nat, nat)>)
    ensures r.Some? ==> 0 < r.value.0 <= 9 && r.value.0 <= |b| && r.value.1 < UINT64
  {
    if b == [] || b[0] < 128 || b[0] >= QP_INT8 then None
    else if b[0] < QP_RAW8 then Some((1, b[0] - 128))
    else
      var w := Width(b[0] - QP_RAW8);
      if 1 + w > |b| then None
      else
        Spans();
        Some((1 + w, FromLe(b[1..1 + w])))
  }

  /** QP_UNPACK_CHECK_SZ for a string at the cursor `at`, and what follows it; addresses have 64 bits. */
  function CodeRawAt(m: Memory, at: nat, size: nat): (r: (Token, int))
    requires Placed(m) && at <= |m.data| && size < UINT64
  {
    var address := (m.base + at + size) % UINT64;
    if address > m.base + |m.data| then (Err, at)
    else (if m.base + at + size < UINT64 then Raw(m.data[at..at + size]) else Wrapped(size), address - m.base)
  }

  /** qp_next at the cursor pt: what it reads, and the cursor behind it. */
  function CodeNext(m: Memory, pt: nat): (r: (Token, int))
    requires Placed(m) && pt <= |m.data|
  {
    var b := m.data[pt..];
    match RawHead(b)
    case Some((at, size)) => CodeRawAt(m, pt + at, size)
    case None => (Next(b).0, pt + Next(b).1)
  }

  /** A raw header stands at the cursor, and the end of its string wraps. */
  predicate WrapsAt(m: Memory, pt: nat)
    requires pt <= |m.data|
  {
    var h := RawHead(m.data[pt..]);
    h.Some? && m.base + pt + h.value.0 + h.value.1 >= UINT64
  }

  lemma NextOfHead(b: Bytes)
    requires RawHead(b).Some?
    ensures Next(b) == RawAt(b, RawHead(b).value.0, RawHead(b).value.1)
  {}

  /** qp_next does what it is meant to do exactly when the length does not wrap.  When it does, the
      string that is not there is accepted, and the cursor ends up before the end of its header. */
  lemma CodeNextExact(m: Memory, pt: nat)
    requires Placed(m) && pt <= |m.data|
    ensures var (t, n) := Next(m.data[pt..]);
            && (!WrapsAt(m, pt) <==> CodeNext(m, pt) == (t, pt + n))
            && (WrapsAt(m, pt) ==> t == Err && CodeNext(m, pt).0.Wrapped? && CodeNext(m, pt).1 < pt + n)
  {
    hide Next, RawHead, RawAt, CodeRawAt;
    var b := m.data[pt..];
    var h := RawHead(b);
    if h.Some? {
      NextOfHead(b);
      RawAtExact(m, pt, h.value.0, h.value.1);
    }
  }

  lemma RawAtExact(m: Memory, pt: nat, at: nat, size: nat)
    requires Placed(m) && 0 < at && pt + at <= |m.data| && size < UINT64
    ensures var (t, n) := RawAt(m.data[pt..], at, size);
            var (u, p) := CodeRawAt(m, pt + at, size);
            && !t.Wrapped?
            && if m.base + pt + at + size < UINT64 then (u, p) == (t, pt + n)
               else t == Err && n == at && u == Wrapped(size) && p == pt + at + size - UINT64
  {
    Modulo(m.base + pt + at + size);
    assert pt + at + size <= |m.data| ==> m.data[pt..][at..at + size] == m.data[pt + at..pt + at + size];
  }

  lemma Modulo(a: nat)
    requires a < 2 * UINT64
    ensures a % UINT64 == if a < UINT64 then a else a - UINT64
  {}

  // ---- the lengths that skipping reaches ----

  /** No length wraps among those that skipping the value at pt reads. */
  predicate TameSkip(m: Memory, pt: nat)
    requires pt <= |m.data|
    decreases |m.data| - pt, 0
  {
    var (t, n) := Next(m.data[pt..]);
    var tp := TypeOf(t);
    && !WrapsAt(m, pt)
    && (QP_ARRAY0 <= tp < QP_MAP0 ==> TameMany(m, pt + n, tp - QP_ARRAY0))
    && (QP_MAP0 <= tp < QP_TRUE ==> TameMany(m, pt + n, 2 * (tp - QP_MAP0)))
    && (tp == QP_ARRAY_OPEN ==> TameOpen(m, pt + n, false))
    && (tp == QP_MAP_OPEN ==> TameOpen(m, pt + n, true))
  }

  predicate TameMany(m: Memory, pt: nat, k: nat)
    requires pt <= |m.data|
    decreases |m.data| - pt, 1, k
  {
    k > 0 ==> TameSkip(m, pt) && TameMany(m, pt + Skip(m.data[pt..]).1, k - 1)
  }

  predicate TameOpen(m: Memory, pt: nat, isMap: bool)
    requires pt <= |m.data|
    decreases |m.data| - pt, 2
  {
    var (tp, n) := Skip(m.data[pt..]);
    && TameSkip(m, pt)
    && (tp != QP_END && tp != CloseMark(isMap) ==>
          && TameMany(m, pt + n, Group(isMap) - 1)
          && TameOpen(m, pt + n + SkipMany(m.data[pt + n..], Group(isMap) - 1), isMap))
  }

  lemma TameFirst(m: Memory, pt: nat, k: nat)
    requires pt <= |m.data| && k > 0
    ensures TameMany(m, pt, k) <==> TameSkip(m, pt) && TameMany(m, pt + Skip(m.data[pt..]).1, k - 1)
  {
    hide TameSkip, Skip;
  }

  predicate TameInside(tp: int, m: Memory, pt: nat)
    requires pt <= |m.data|
  {
    && (QP_ARRAY0 <= tp < QP_MAP0 ==> TameMany(m, pt, tp - QP_ARRAY0))
    && (QP_MAP0 <= tp < QP_TRUE ==> TameMany(m, pt, 2 * (tp - QP_MAP0)))
    && (tp == QP_ARRAY_OPEN ==> TameOpen(m, pt, false))
    && (tp == QP_MAP_OPEN ==> TameOpen(m, pt, true))
  }

  lemma TameOf(m: Memory, pt: nat)
    requires pt <= |m.data|
    ensures var (t, n) := Next(m.data[pt..]);
            TameSkip(m, pt) ==> !WrapsAt(m, pt) && TameInside(TypeOf(t), m, pt + n)
  {
    hide Next, WrapsAt, TameMany, TameOpen;
  }

  /** The rest of an open array or map behind an item (a key) of type tp. */
  predicate TameRest(tp: int, m: Memory, pt: nat, isMap: bool)
    requires pt <= |m.data|
  {
    tp != QP_END && tp != CloseMark(isMap) ==>
      && TameMany(m, pt, Group(isMap) - 1)
      && TameOpen(m, pt + SkipMany(m.data[pt..], Group(isMap) - 1), isMap)
  }

  lemma TameStep(m: Memory, pt: nat, isMap: bool)
    requires pt <= |m.data|
    ensures var (tp, n) := Skip(m.data[pt..]);
            TameOpen(m, pt, isMap) <==> TameSkip(m, pt) && TameRest(tp, m, pt + n, isMap)
  {
    hide Skip, SkipMany, TameSkip, TameMany;
  }

  lemma TameItem(tp: int, m: Memory, pt: nat, isMap: bool)
    requires pt <= |m.data| && TameRest(tp, m, pt, isMap) && tp != QP_END && tp != CloseMark(isMap)
    ensures TameMany(m, pt, Group(isMap) - 1)
    ensures TameOpen(m, pt + SkipMany(m.data[pt..], Group(isMap) - 1), isMap)
  {
    hide SkipMany, TameMany, TameOpen;
  }

  /** The tokens of qp_next case by case: strings are read by CodeRawAt, all others as meant. */
  lemma NextOf(m: Memory, pt: nat)
    requires Placed(m) && pt <= |m.data|
    ensures var b := m.data[pt..];
            CodeNext(m, pt) ==
            if b != [] && 128 <= b[0] < QP_RAW8 then CodeRawAt(m, pt + 1, b[0] - 128)
            else if b != [] && QP_RAW8 <= b[0] < QP_INT8 && 1 + Width(b[0] - QP_RAW8) <= |b| then
              var w := Width(b[0] - QP_RAW8);
              Spans();
              CodeRawAt(m, pt + 1 + w, FromLe(b[1..1 + w]))
            else (Next(b).0, pt + Next(b).1)
  {
    hide Next, CodeRawAt;
  }
}
