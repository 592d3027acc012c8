/** The bytes of qpack, spelled out: every atom is packed in the shortest of its forms. */
module QpackForms {
  import opened Common
  import opened QpackTokens
  import opened QpackValues
  import opened Words

  // ---- no form is shorter ----

  /** No bytes that read as an integer are fewer than those it is packed in. */
  lemma IntShortest(b: Bytes, i: int)
    requires IsInt64(i) && Next(b) == (Int(i), |b|)
    ensures |EncInt(i)| <= |b|
  {
    hide FromLe, Le;
    Spans();
    if |b| > 1 {
      var w := Width(b[0] - QP_INT8);
      assert Fits(i, w);
    }
  }

  /** No bytes that read as a string are fewer than those it is packed in. */
  lemma RawShortest(b: Bytes, r: Bytes)
    requires |r| < UINT64 && Next(b) == (Raw(r), |b|)
    ensures |Enc(Raw(r))| <= |b|
  {
    hide FromLe, Le;
    Spans();
    if b[0] >= QP_RAW8 {
      var w := Width(b[0] - QP_RAW8);
      assert |r| == FromLe(b[1..1 + w]) < Span(w);
    }
  }

  /** No bytes that read as a double are fewer than those it is packed in. */
  lemma RealShortest(b: Bytes, d: Bytes)
    requires |d| == 8 && Next(b) == (Real(d), |b|)
    ensures |EncReal(d)| <= |b|
  {}

  // ---- the forms ----

  /** Small integers are one byte: 0 to 63 as they are, and -k as 63 + k. */
  lemma SmallInts(k: nat, s: Bytes)
    requires k <= 63
    ensures EncInt(k) == [k] && Next([k] + s) == (Int(k), 1)
    ensures 1 <= k <= 60 ==> EncInt(0 - k) == [63 + k] && Next([63 + k] + s) == (Int(0 - k), 1)
  {}

  /** Other integers are the type 232 to 235 and 1, 2, 4 or 8 bytes, the least one first, in two's
      complement. */
  lemma LargeInts(i: int, n: nat)
    requires IsInt64(i) && !(-60 <= i < 64)
    requires (-0x80 <= i < 0x80 && n == 0) || (!(-0x80 <= i < 0x80) && -0x8000 <= i < 0x8000 && n == 1)
             || (!(-0x8000 <= i < 0x8000) && -0x8000_0000 <= i < 0x8000_0000 && n == 2)
             || (!(-0x8000_0000 <= i < 0x8000_0000) && n == 3)
    ensures var w := if n == 0 then 1 else if n == 1 then 2 else if n == 2 then 4 else 8;
            var u := if i >= 0 then i else i + Span(w);
            var b := EncInt(i);
            |b| == 1 + w && b[0] == 232 + n && forall j :: 0 <= j < w ==> b[1 + j] == u / Span(j) % 256
  {
    hide Le, Span;
    IntFits(i);
    var w := Width(n);
    var u := Unsigned(i, w);
    assert EncInt(i) == [232 + n] + Le(u, w);
    forall j | 0 <= j < w ensures Le(u, w)[j] == u / Span(j) % 256 {
      LeByte(u, w, j);
    }
  }

  /** A string is the type 128 + length below 100 bytes, or the type 228 to 231 and the length in 1,
      2, 4 or 8 bytes, the least one first; then the string. */
  lemma Strings(r: Bytes, n: nat)
    requires |r| < UINT64
    requires (|r| <= 0xFF && n == 0) || (0xFF < |r| <= 0xFFFF && n == 1) || (0xFFFF < |r| <= 0xFFFF_FFFF && n == 2)
             || (0xFFFF_FFFF < |r| && n == 3)
    ensures |r| < 100 ==> Enc(Raw(r)) == [128 + |r|] + r
    ensures |r| >= 100 ==>
              var w := if n == 0 then 1 else if n == 1 then 2 else if n == 2 then 4 else 8;
              var b := Enc(Raw(r));
              && |b| == 1 + w + |r| && b[0] == 228 + n && b[1 + w..] == r
              && forall j :: 0 <= j < w ==> b[1 + j] == |r| / Span(j) % 256
  {
    hide Le, Span;
    if |r| >= 100 {
      var w := Width(n);
      assert RawHeader(|r|) == [228 + n] + Le(|r|, w);
      forall j | 0 <= j < w ensures Le(|r|, w)[j] == |r| / Span(j) % 256 {
        LeByte(|r|, w, j);
      }
    }
  }

  /** The doubles -1.0, 0.0 and 1.0, whose eight bytes in binary64 are given here, are the types 125,
      126 and 127; all others are the type 236 and their bytes. */
  lemma Doubles(d: Bytes, s: Bytes)
    requires |d| == 8
    ensures EncReal(d) == if d == [0, 0, 0, 0, 0, 0, 240, 191] then [125]
                          else if d == [0, 0, 0, 0, 0, 0, 0, 0] || d == [0, 0, 0, 0, 0, 0, 0, 128] then [126]
                          else if d == [0, 0, 0, 0, 0, 0, 240, 63] then [127]
                          else [236] + d
    ensures Next([125] + s).0 == Real([0, 0, 0, 0, 0, 0, 240, 191])
    ensures Next([126] + s).0 == Real([0, 0, 0, 0, 0, 0, 0, 0])
    ensures Next([127] + s).0 == Real([0, 0, 0, 0, 0, 0, 240, 63])
  {}

  /** Arrays of up to five items are the types 237 to 242, maps of up to five pairs 243 to 248. */
  lemma CountedForm(m: bool, n: nat, items: seq<Value>)
    requires AllWellFormed(items) && n <= 5 && |items| == if m then 2 * n else n
    ensures WellFormed(Short(m, items))
    ensures Encode(Short(m, items)) == [if m then 243 + n else 237 + n] + EncodeAll(items)
  {
    hide EncodeAll, AllWellFormed, Enc, IsAtom;
  }

  /** Open arrays stand between 252 and 254, open maps between 253 and 255. */
  lemma OpenForm(m: bool, n: nat, items: seq<Value>)
    requires AllWellFormed(items) && |items| == if m then 2 * n else n
    ensures WellFormed(Open(m, items))
    ensures Encode(Open(m, items)) == [if m then 253 else 252] + EncodeAll(items) + [if m then 255 else 254]
  {
    hide EncodeAll, AllWellFormed, Enc, IsAtom;
  }

  /** Integers are read in any width, also when a shorter form would do. */
  lemma IntRead(n: nat, u: nat, s: Bytes)
    requires n <= 3
    requires var w := if n == 0 then 1 else if n == 1 then 2 else if n == 2 then 4 else 8; u < Span(w)
    ensures var w := if n == 0 then 1 else if n == 1 then 2 else if n == 2 then 4 else 8;
            Next([232 + n] + Le(u, w) + s) == (Int(if 2 * u < Span(w) then u else u - Span(w)), 1 + w)
  {
    hide Le, FromLe, Span;
    var w := Width(n);
    LeRoundTrip(u, w);
    assert ([232 + n] + Le(u, w) + s)[1..1 + w] == Le(u, w);
  }

  /** The type and a length in a word of any width. */
  function LongHead(n: nat, size: nat): (h: Bytes)
    requires n <= 3
  {
    [228 + n] + Le(size, if n == 0 then 1 else if n == 1 then 2 else if n == 2 then 4 else 8)
  }

  /** So are the lengths of strings. */
  lemma RawRead(n: nat, r: Bytes, s: Bytes)
    requires n <= 3
    requires |r| < Span(if n == 0 then 1 else if n == 1 then 2 else if n == 2 then 4 else 8)
    ensures Next(LongHead(n, |r|) + r + s) == (Raw(r), |LongHead(n, |r|)| + |r|)
  {
    hide FromLe, RawAt, Next, LongHead;
    var b: Bytes := LongHead(n, |r|) + r + s;
    Parts(n, |r|, r, s);
    LengthAt(n, |r|, b);
    RawHere(b, |LongHead(n, |r|)|, |r|);
  }

  lemma Parts(n: nat, size: nat, r: Bytes, s: Bytes)
    requires n <= 3
    ensures var h := LongHead(n, size);
            var b := h + r + s;
            && |h| == 1 + Width(n) && b[..|h|] == h && b[|h|..|h| + |r|] == r
  {
    hide Le;
  }

  lemma LengthAt(n: nat, size: nat, b: Bytes)
    requires n <= 3 && size < Span(Width(n))
    requires var h := LongHead(n, size); |h| <= |b| && b[..|h|] == h
    ensures Next(b) == RawAt(b, |LongHead(n, size)|, size)
  {
    hide FromLe, RawAt, Le, Span;
    var w := Width(n);
    LeRoundTrip(size, w);
    assert b[1..1 + w] == b[..1 + w][1..] == Le(size, w);
    assert b[0] == b[..1 + w][0] == 228 + n;
  }

  lemma RawHere(b: Bytes, at: nat, size: nat)
    requires 0 < at && at + size <= |b|
    ensures RawAt(b, at, size) == (Raw(b[at..at + size]), at + size)
  {}

  lemma LengthOf(r: Bytes)
    requires 100 <= |r| < UINT64
    ensures var w := Width(LengthType(|r|)); |Enc(Raw(r))| == 1 + w + |r| && Enc(Raw(r))[1..1 + w] == Le(|r|, w)
  {
    hide Le;
  }

  lemma SliceOfFront(b: Bytes, n: nat, i: nat, j: nat)
    requires i <= j <= n <= |b|
    ensures b[..n][i..j] == b[i..j]
  {}

  /** An atom that is cut off is an error. */
  lemma CutOff(t: Token, n: nat)
    requires Packable(t) && 0 < n < |Enc(t)|
    ensures Next(Enc(t)[..n]).0 == Err
  {
    hide Le, FromLe, Span;
    if t.Raw? && |t.raw| >= 100 {
      var w := Width(LengthType(|t.raw|));
      LengthFits(|t.raw|);
      LeRoundTrip(|t.raw|, w);
      if n >= 1 + w {
        LengthOf(t.raw);
        SliceOfFront(Enc(t), n, 1, 1 + w);
      }
    } else if t.Int? && !(-60 <= t.int64 < 64) {
      IntFits(t.int64);
    }
  }

  /** The types that qp_next and qp_skip_next return; marks are their own byte. */
  lemma Types(t: Token, s: Bytes, tp: byte)
    ensures t.End? ==> TypeOf(t) == 0
    ensures t.Err? ==> TypeOf(t) == 1
    ensures t.Raw? || t.Wrapped? ==> TypeOf(t) == 2
    ensures t.Hook? ==> TypeOf(t) == 124
    ensures t.Int? ==> TypeOf(t) == 235
    ensures t.Real? ==> TypeOf(t) == 236
    ensures tp >= 237 ==> Next([tp] + s) == (Mark(tp), 1) && TypeOf(Mark(tp)) == tp
  {}
}
