/** The bytes of a fifo file.

    Packages are written from the end of the file towards its start.  Behind each package
    stands its size, so the oldest package is found from the end of the file, and a zero
    word below the newest one ends the list. */
module FifoBytes {
  import opened Common
  import opened Files
  import opened Words

  const FFILE_DEFAULT_SIZE: nat := 104857600
  const UINT32_SZ: nat := 4
  const PKG_HEADER_SZ: nat := 8
  const UINT32_MAX: nat := 0xFFFF_FFFF

  // ---- little-endian words ----

  function Le32(n: nat): (w: Bytes)
    requires n <= UINT32_MAX
    ensures |w| == UINT32_SZ
  {
    Le(n, UINT32_SZ)
  }

  function FromLe32(w: Bytes): (n: nat)
    requires |w| == UINT32_SZ
    ensures n <= UINT32_MAX
  {
    Span32();
    FromLe(w)
  }

  lemma Span32()
    ensures Span(UINT32_SZ) == UINT32_MAX + 1
  {
    assert Span(2) == 65536;
  }

  lemma Le32RoundTrip(n: nat)
    requires n <= UINT32_MAX
    ensures FromLe32(Le32(n)) == n
  {
    Span32();
    LeRoundTrip(n, UINT32_SZ);
  }

  // ---- packages ----

  /** The largest package whose file still has a size that fits in 32 bits. */
  const PKG_MAX_SZ: nat := UINT32_MAX - 2 * UINT32_SZ

  /** A package starts with the length of what follows its header. */
  predicate IsPackage(p: Bytes) {
    && PKG_HEADER_SZ <= |p| <= PKG_MAX_SZ
    && FromLe32(p[..UINT32_SZ]) == |p| - PKG_HEADER_SZ
  }

  predicate ArePackages(ps: seq<Bytes>) {
    forall i :: 0 <= i < |ps| ==> IsPackage(ps[i])
  }

  /** The bytes of a list of packages, oldest package first in the list and last in the file. */
  function Enc(ps: seq<Bytes>): Bytes
    requires ArePackages(ps)
  {
    if ps == [] then []
    else
      var p := ps[|ps| - 1];
      p + Le32(|p|) + Enc(ps[..|ps| - 1])
  }

  /** low zero bytes, then the packages; or a file that was never written to. */
  predicate Layout(b: Bytes, low: nat, ps: seq<Bytes>) {
    && ArePackages(ps) && UINT32_SZ <= low
    && (b == Zeros(low) + Enc(ps) || (b == [] && ps == []))
  }

  // ---- reading from the end ----

  function Parse(b: Bytes): seq<Bytes> {
    if |b| < UINT32_SZ then []
    else
      var n := FromLe32(b[|b| - UINT32_SZ..]);
      if n == 0 || n + UINT32_SZ > |b| then []
      else [b[|b| - UINT32_SZ - n..|b| - UINT32_SZ]] + Parse(b[..|b| - UINT32_SZ - n])
  }

  lemma {:induction false} EncFirst(ps: seq<Bytes>)
    requires ArePackages(ps) && ps != []
    ensures Enc(ps) == Enc(ps[1..]) + ps[0] + Le32(|ps[0]|)
  {
    hide Le32, FromLe32;
    var k := |ps| - 1;
    if k == 0 {
      assert ps[1..] == [] && ps[..0] == [];
      assert Enc(ps) == ps[0] + Le32(|ps[0]|) + [];
    } else {
      EncFirst(ps[..k]);
      assert ps[..k][1..] == ps[1..][..k - 1];
      assert ps[1..][k - 1] == ps[k];
      Reassociate(ps[k], Le32(|ps[k]|), Enc(ps[1..][..k - 1]), ps[0], Le32(|ps[0]|));
    }
  }

  /** The newest package stands lowest, and its size behind it, the least byte first. */
  lemma NewestAt(b: Bytes, low: nat, ps: seq<Bytes>, p: Bytes)
    requires Layout(b, low, ps + [p])
    ensures low + |p| + 4 <= |b| && b[low..low + |p|] == p
    ensures forall i :: 0 <= i < 4 ==> b[low + |p| + i] == |p| / Span(i) % 256
  {
    hide Le, Span, FromLe32;
    var all := ps + [p];
    assert all[|all| - 1] == p && IsPackage(p);
    var word := Le32(|p|);
    assert b == Zeros(low) + (p + word + Enc(all[..|all| - 1]));
    forall i | 0 <= i < 4 ensures word[i] == |p| / Span(i) % 256 {
      LeByte(|p|, 4, i);
    }
    assert forall i :: 0 <= i < 4 ==> b[low + |p| + i] == word[i];
  }

  lemma Reassociate(p: Bytes, l: Bytes, e: Bytes, q: Bytes, m: Bytes)
    ensures p + l + (e + q + m) == (p + l + e) + q + m
  {}

  lemma ZeroWord()
    ensures FromLe32(Zeros(UINT32_SZ)) == 0
  {
    ZerosWord(UINT32_SZ);
  }

  lemma ParseEmpty(b: Bytes, low: nat)
    requires Layout(b, low, [])
    ensures Parse(b) == []
  {
    if b != [] {
      assert b[|b| - UINT32_SZ..] == Zeros(UINT32_SZ);
      ZeroWord();
    }
  }

  /** Reading a file from its end gives the packages back, oldest first. */
  lemma {:induction false} ParseLayout(b: Bytes, low: nat, ps: seq<Bytes>)
    requires Layout(b, low, ps)
    ensures Parse(b) == ps
    decreases |ps|
  {
    hide Layout, FromLe32, Enc;
    if ps == [] {
      ParseEmpty(b, low);
    } else {
      ParseStep(b, low, ps);
      ParseLayout(b[..|b| - UINT32_SZ - |ps[0]|], low, ps[1..]);
      assert [ps[0]] + ps[1..] == ps;
    }
  }

  lemma ParseStep(b: Bytes, low: nat, ps: seq<Bytes>)
    requires Layout(b, low, ps) && ps != []
    ensures var n := |ps[0]|;
            && 0 < n && n + UINT32_SZ <= |b|
            && FromLe32(b[|b| - UINT32_SZ..]) == n
            && b[|b| - UINT32_SZ - n..|b| - UINT32_SZ] == ps[0]
            && Layout(b[..|b| - UINT32_SZ - n], low, ps[1..])
  {
    var n := |ps[0]|;
    EncFirst(ps);
    Le32RoundTrip(n);
    var rest := Zeros(low) + Enc(ps[1..]);
    assert b == rest + ps[0] + Le32(n);
    assert b[|b| - UINT32_SZ..] == Le32(n);
    assert b[..|b| - UINT32_SZ - n] == rest;
  }

  // ---- writing below the packages ----

  lemma WriteBelow(b: Bytes, low: nat, e: Bytes, p: Bytes, l: Bytes)
    requires b == Zeros(low) + e && 0 < |p| && |p| + |l| <= low
    ensures var low' := low - |p| - |l|;
            WriteAt(WriteAt(b, low', p), low' + |p|, l) == Zeros(low') + (p + l + e)
  {
    var low' := low - |p| - |l|;
    var b1 := WriteAt(b, low', p);
    assert b1[..low' + |p|] == Zeros(low') + p;
    assert b1[low' + |p| + |l|..] == e;
  }

  lemma WriteFirst(low: nat, p: Bytes, l: Bytes)
    requires low > 0
    ensures WriteAt(WriteAt([], low, p), low + |p|, l) == Zeros(low) + (p + l + [])
  {
    var b1 := WriteAt([], low, p);
    assert b1 == Zeros(low) + p;
    WriteAtEnd(b1, l);
    assert p + l + [] == p + l;
    assert Zeros(low) + p + l == Zeros(low) + (p + l);
  }

  lemma WriteAtEnd(b: Bytes, l: Bytes)
    ensures WriteAt(b, |b|, l) == b + l
  {
    assert b[..|b|] == b;
  }

  /** Writing a package and its size below the others puts it last in the list. */
  lemma AppendLayout(b: Bytes, low: nat, ps: seq<Bytes>, p: Bytes)
    requires Layout(b, low, ps) && IsPackage(p) && |p| + 2 * UINT32_SZ <= low
    ensures var low' := low - |p| - UINT32_SZ;
            var b' := WriteAt(WriteAt(b, low', p), low' + |p|, Le32(|p|));
            Layout(b', low', ps + [p]) && |b'| == (if b == [] then low else |b|) && b' != []
  {
    hide WriteAt, Le32, FromLe32;
    if b == [] {
      WriteFirst(low - |p| - UINT32_SZ, p, Le32(|p|));
    } else {
      WriteBelow(b, low, Enc(ps), p, Le32(|p|));
    }
    assert (ps + [p])[..|ps|] == ps;
  }

  /** The bytes read by a pop. */
  lemma PopLayout(b: Bytes, low: nat, ps: seq<Bytes>)
    requires Layout(b, low, ps) && ps != []
    ensures var n := |ps[0]|;
            && n + UINT32_SZ <= |b| && b[|b| - n - UINT32_SZ..][..n] == ps[0] && IsPackage(ps[0])
  {
    hide FromLe32, Enc;
    ParseStep(b, low, ps);
    var k := |b| - |ps[0]| - UINT32_SZ;
    assert b[k..][..|ps[0]|] == b[k..|b| - UINT32_SZ];
  }

  /** The words read and the length kept by a commit. */
  lemma CommitLayout(b: Bytes, low: nat, ps: seq<Bytes>)
    requires Layout(b, low, ps) && ps != []
    ensures var size := |b| - |ps[0]| - UINT32_SZ;
            && UINT32_SZ <= size
            && FromLe32(b[size - UINT32_SZ..size]) == (if |ps| == 1 then 0 else |ps[1]|)
            && Layout(b[..size], low, ps[1..])
  {
    ParseStep(b, low, ps);
    var size := |b| - |ps[0]| - UINT32_SZ;
    var c := b[..size];
    assert b[size - UINT32_SZ..size] == c[size - UINT32_SZ..];
    if |ps| == 1 {
      assert c == Zeros(low) + Enc(ps[1..]);
      assert c[size - UINT32_SZ..] == Zeros(UINT32_SZ);
      ZeroWord();
    } else {
      ParseStep(c, low, ps[1..]);
    }
  }
}
