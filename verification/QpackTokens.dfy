/** The atoms of qpack: what qp_add_* writes and what qp_next reads. */
module QpackTokens {
  import opened Common
  import opened Words

  const QP_END := 0
  const QP_ERR := 1
  const QP_RAW := 2
  const QP_HOOK := 124
  const QP_RAW8 := 228
  const QP_INT8 := 232
  const QP_INT64 := 235
  const QP_DOUBLE := 236
  const QP_ARRAY0 := 237
  const QP_MAP0 := 243
  const QP_TRUE := 249
  const QP_NULL := 251
  const QP_ARRAY_OPEN := 252
  const QP_MAP_OPEN := 253
  const QP_ARRAY_CLOSE := 254
  const QP_MAP_CLOSE := 255

  /** A double is kept as its eight bytes.  `Wrapped` is a raw string whose end is computed past the
      last address. */
  datatype Token =
    | Raw(raw: Bytes) | Wrapped(len: nat) | Int(int64: int) | Real(double: Bytes) | Mark(tp: byte) | Hook | End | Err

  function TypeOf(t: Token): int {
    match t
    case Raw(_) => QP_RAW
    case Wrapped(_) => QP_RAW
    case Int(_) => QP_INT64
    case Real(_) => QP_DOUBLE
    case Mark(tp) => tp
    case Hook => QP_HOOK
    case End => QP_END
    case Err => QP_ERR
  }

  // ---- doubles (binary64 of IEEE 754) ----

  const ZERO: Bytes := [0, 0, 0, 0, 0, 0, 0, 0]
  const MINUS_ZERO: Bytes := [0, 0, 0, 0, 0, 0, 0, 128]
  const ONE: Bytes := [0, 0, 0, 0, 0, 0, 240, 63]
  const MINUS_ONE: Bytes := [0, 0, 0, 0, 0, 0, 240, 191]

  /** The double tp - 126. */
  function FixedDouble(tp: nat): (d: Bytes)
    requires 125 <= tp <= 127
    ensures |d| == 8
  {
    if tp == 125 then MINUS_ONE else if tp == 126 then ZERO else ONE
  }

  // ---- writing ----

  /** The number of bytes of word type k of a group that starts with one byte. */
  function Width(k: nat): (w: nat)
    requires k <= 3
    ensures 1 <= w <= 8
  {
    if k == 0 then 1 else if k == 1 then 2 else if k == 2 then 4 else 8
  }

  const UINT64: nat := 0x1_0000_0000_0000_0000

  /** The smallest word type that holds a length. */
  function LengthType(n: nat): (k: nat)
    ensures k <= 3
  {
    if n <= 0xFF then 0 else if n <= 0xFFFF then 1 else if n <= 0xFFFF_FFFF then 2 else 3
  }

  function RawHeader(n: nat): (h: Bytes)
    ensures 1 <= |h| <= 9
  {
    if n < 100 then [128 + n] else [QP_RAW8 + LengthType(n)] + Le(n, Width(LengthType(n)))
  }

  predicate IsInt64(i: int) {
    -0x8000_0000_0000_0000 <= i < 0x8000_0000_0000_0000
  }

  function IntType(i: int): (k: nat)
    ensures k <= 3
  {
    if -0x80 <= i < 0x80 then 0 else if -0x8000 <= i < 0x8000 then 1
    else if -0x8000_0000 <= i < 0x8000_0000 then 2 else 3
  }

  function EncInt(i: int): Bytes
    requires IsInt64(i)
  {
    if 0 <= i < 64 then [i]
    else if -60 <= i < 0 then [63 - i]
    else
      IntFits(i);
      [QP_INT8 + IntType(i)] + Le(Unsigned(i, Width(IntType(i))), Width(IntType(i)))
  }

  function EncReal(d: Bytes): Bytes
    requires |d| == 8
  {
    if d == ZERO || d == MINUS_ZERO then [126]
    else if d == ONE then [127]
    else if d == MINUS_ONE then [125]
    else [QP_DOUBLE] + d
  }

  /** What can be packed as an atom. */
  predicate Packable(t: Token) {
    match t
    case Raw(r) => |r| < UINT64
    case Int(i) => IsInt64(i)
    case Real(d) => |d| == 8
    case Mark(tp) => tp >= QP_ARRAY0
    case _ => false
  }

  function Enc(t: Token): (b: Bytes)
    requires Packable(t)
  {
    match t
    case Raw(r) => RawHeader(|r|) + r
    case Int(i) => EncInt(i)
    case Real(d) => EncReal(d)
    case Mark(tp) => [tp]
  }

  // ---- reading ----

  /** What qp_next reads from the bytes at the cursor, and by how much the cursor moves, as long as
      no address wraps. */
  function Next(b: Bytes): (r: (Token, nat))
    ensures r.1 <= |b| && (r.1 == 0 <==> b == []) && (r.0 == End <==> b == [])
    ensures (r.0.Mark? ==> r.0.tp >= QP_ARRAY0) && !r.0.Wrapped?
  {
    if b == [] then (End, 0)
    else
      var tp := b[0];
      if tp < 64 then (Int(tp), 1)
      else if tp < 124 then (Int(63 - tp), 1)
      else if tp == 124 then (Hook, 1)
      else if tp < 128 then (Real(FixedDouble(tp)), 1)
      else if tp < QP_RAW8 then RawAt(b, 1, tp - 128)
      else if tp < QP_INT8 then
        var w := Width(tp - QP_RAW8);
        if 1 + w > |b| then (Err, 1) else RawAt(b, 1 + w, FromLe(b[1..1 + w]))
      else if tp < QP_DOUBLE then
        var w := Width(tp - QP_INT8);
        if 1 + w > |b| then (Err, 1) else (Int(Signed(FromLe(b[1..1 + w]), w)), 1 + w)
      else if tp == QP_DOUBLE then
        if 9 > |b| then (Err, 1) else (Real(b[1..9]), 9)
      else (Mark(tp), 1)
  }

  function RawAt(b: Bytes, at: nat, size: nat): (r: (Token, nat))
    requires 0 < at <= |b|
    ensures 0 < r.1 <= |b| && (r.0 == Err || r.0.Raw?)
  {
    if at + size > |b| then (Err, at) else (Raw(b[at..at + size]), at + size)
  }

  // ---- reading what was written ----

  lemma Spans()
    ensures Span(1) == 0x100 && Span(2) == 0x1_0000 && Span(4) == 0x1_0000_0000 && Span(8) == UINT64
  {
    assert Span(2) == 256 * Span(1);
    assert Span(4) == 256 * 256 * Span(2);
    assert Span(6) == 256 * 256 * Span(4);
  }

  lemma LengthFits(n: nat)
    requires n < UINT64
    ensures n < Span(Width(LengthType(n)))
  {
    Spans();
  }

  lemma IntFits(i: int)
    requires IsInt64(i)
    ensures Fits(i, Width(IntType(i)))
  {
    Spans();
  }

  /** -0.0 comes back as 0.0. */
  function Stored(t: Token): Token {
    if t == Real(MINUS_ZERO) then Real(ZERO) else t
  }

  /** qp_next gives back what was written, whatever follows it. */
  lemma NextEnc(t: Token, s: Bytes)
    requires Packable(t)
    ensures Next(Enc(t) + s) == (Stored(t), |Enc(t)|)
  {
    match t
    case Raw(r) => NextRaw(r, s);
    case Int(i) => NextInt(i, s);
    case Real(d) => NextReal(d, s);
    case Mark(tp) =>
  }

  lemma NextRaw(r: Bytes, s: Bytes)
    requires |r| < UINT64
    ensures Next(RawHeader(|r|) + r + s) == (Raw(r), |RawHeader(|r|)| + |r|)
  {
    hide Le, FromLe;
    var n := |r|;
    var b := RawHeader(n) + r + s;
    if n < 100 {
      assert b[1..1 + n] == r;
    } else {
      var w := Width(LengthType(n));
      LengthFits(n);
      LeRoundTrip(n, w);
      assert b[1..1 + w] == Le(n, w);
      assert b[1 + w..1 + w + n] == r;
    }
  }

  lemma NextInt(i: int, s: Bytes)
    requires IsInt64(i)
    ensures Next(EncInt(i) + s) == (Int(i), |EncInt(i)|)
  {
    hide Le, FromLe, Span;
    if !(-60 <= i < 64) {
      IntFits(i);
      var w := Width(IntType(i));
      var u := Unsigned(i, w);
      LeRoundTrip(u, w);
      assert (EncInt(i) + s)[1..1 + w] == Le(u, w);
    }
  }

  lemma NextReal(d: Bytes, s: Bytes)
    requires |d| == 8
    ensures Next(EncReal(d) + s) == (Stored(Real(d)), |EncReal(d)|)
  {
    if EncReal(d)[0] == QP_DOUBLE {
      assert (EncReal(d) + s)[1..9] == d;
    }
  }
}
