/** The body of an HTTP message byte by byte: what the parser's states stand for. */
module HttpBody {
  import opened Common

  const CR: byte := 13
  const LF: byte := 10
  const SP: byte := 32
  const SEMICOLON: byte := 59
  const ULLONG_MAX: nat := 0xFFFF_FFFF_FFFF_FFFF
  const MAX_HEADER_SIZE: nat := 81920

  datatype Errno = InvalidChunkSize | InvalidContentLength | HeaderOverflow | Strict

  datatype Phase =
    | BodyIdentity
    | ChunkSizeStart | ChunkSize | ChunkParameters | ChunkSizeAlmostDone
    | ChunkData | ChunkDataAlmostDone | ChunkDataDone
    | MessageDone  // a body of a given length is complete
    | Trailer      // the last chunk is complete; what follows is read as headers
    | Error(e: Errno)

  /** `left` is content_length: what is left of the body or of a chunk. */
  datatype State = State(phase: Phase, left: nat, nread: nat)

  /** The phases in which bytes count for the limit on headers. */
  predicate ParsingHeader(p: Phase) {
    p.ChunkSizeStart? || p.ChunkSize? || p.ChunkParameters? || p.ChunkSizeAlmostDone?
  }

  predicate Ended(p: Phase) {
    p.MessageDone? || p.Trailer? || p.Error?
  }

  function Unhex(c: byte): (v: int)
    ensures -1 <= v < 16
  {
    if 48 <= c <= 57 then c - 48
    else if 65 <= c <= 70 then c - 55
    else if 97 <= c <= 102 then c - 87
    else -1
  }

  predicate Valid(st: State) {
    && (st.phase.BodyIdentity? || st.phase.ChunkData? ==> 0 < st.left < ULLONG_MAX)
    && (st.phase.ChunkSize? || st.phase.ChunkParameters? || st.phase.ChunkSizeAlmostDone? ==> st.left < ULLONG_MAX)
    && (st.phase.ChunkSizeStart? ==> st.nread == 0)
    && (st.phase.ChunkDataAlmostDone? || st.phase.ChunkDataDone? || st.phase.MessageDone? ==> st.left == 0)
    && st.nread <= MAX_HEADER_SIZE
  }

  /** One byte of the body: the next state and what the byte adds to the body. */
  function Step(st: State, c: byte): (r: (State, Bytes))
    requires Valid(st) && !Ended(st.phase)
    ensures Valid(r.0)
  {
    var nread := st.nread + if ParsingHeader(st.phase) then 1 else 0;
    if nread > MAX_HEADER_SIZE then (st.(phase := Error(HeaderOverflow)), [])
    else
      match st.phase
      case BodyIdentity =>
        (State(if st.left == 1 then MessageDone else BodyIdentity, st.left - 1, nread), [c])
      case ChunkSizeStart =>
        (if Unhex(c) == -1 then st.(phase := Error(InvalidChunkSize)) else State(ChunkSize, Unhex(c), nread), [])
      case ChunkSize =>
        (if c == CR then State(ChunkSizeAlmostDone, st.left, nread)
         else if Unhex(c) == -1 then
           (if c == SEMICOLON || c == SP then State(ChunkParameters, st.left, nread)
            else st.(phase := Error(InvalidChunkSize)))
         else if (ULLONG_MAX - 16) / 16 < st.left then st.(phase := Error(InvalidContentLength))
         else State(ChunkSize, st.left * 16 + Unhex(c), nread), [])
      case ChunkParameters =>
        (State(if c == CR then ChunkSizeAlmostDone else ChunkParameters, st.left, nread), [])
      case ChunkSizeAlmostDone =>
        (if c != LF then st.(phase := Error(Strict))
         else State(if st.left == 0 then Trailer else ChunkData, st.left, 0), [])
      case ChunkData =>
        (State(if st.left == 1 then ChunkDataAlmostDone else ChunkData, st.left - 1, nread), [c])
      case ChunkDataAlmostDone =>
        (if c != CR then st.(phase := Error(Strict)) else State(ChunkDataDone, st.left, nread), [])
      case ChunkDataDone =>
        (if c != LF then st.(phase := Error(Strict)) else State(ChunkSizeStart, st.left, 0), [])
  }

  /** What a run of bytes leads to: the state, the body in it and how many bytes are taken. */
  datatype Fed = Fed(st: State, body: Bytes, taken: nat)

  function Feed(st: State, b: Bytes): (r: Fed)
    requires Valid(st)
    ensures Valid(r.st) && r.taken <= |b| && (Ended(r.st.phase) || r.taken == |b|)
    decreases |b|
  {
    if b == [] || Ended(st.phase) then Fed(st, [], 0)
    else
      var (u, out) := Step(st, b[0]);
      var rest := Feed(u, b[1..]);
      Fed(rest.st, out + rest.body, if u.phase.Error? then 0 else 1 + rest.taken)
  }

  /** Reading in two parts is reading at once. */
  lemma {:induction false} FeedConcat(st: State, a: Bytes, b: Bytes)
    requires Valid(st)
    ensures var f := Feed(st, a);
            Feed(st, a + b) ==
            if Ended(f.st.phase) then f
            else var g := Feed(f.st, b); Fed(g.st, f.body + g.body, f.taken + g.taken)
    decreases |a|
  {
    hide Step;
    if a == [] {
      assert a + b == b;
    } else if !Ended(st.phase) {
      assert (a + b)[1..] == a[1..] + b;
      FeedConcat(Step(st, a[0]).0, a[1..], b);
    }
  }

  /** b takes the parser from st to u and adds `body`. */
  ghost predicate Leads(st: State, b: Bytes, u: State, body: Bytes) {
    Valid(st) && Valid(u) && Feed(st, b) == Fed(u, body, |b|)
  }

  lemma LeadsOn(st: State, a: Bytes, u: State, x: Bytes, b: Bytes, v: State, y: Bytes)
    requires Leads(st, a, u, x) && !Ended(u.phase) && Leads(u, b, v, y)
    ensures Leads(st, a + b, v, x + y)
  {
    hide Feed;
    FeedConcat(st, a, b);
  }

  lemma LeadsOne(st: State, c: byte)
    requires Valid(st) && !Ended(st.phase) && !Step(st, c).0.phase.Error?
    ensures Leads(st, [c], Step(st, c).0, Step(st, c).1)
  {
    hide Step;
    var (u, out) := Step(st, c);
    assert Feed(u, []) == Fed(u, [], 0);
  }

  // ---- a body of a given length (section 3.3.2 of RFC 7230) ----

  /** As long as the bytes do not go beyond the body, they are the body. */
  lemma {:induction false} FeedPlain(st: State, b: Bytes)
    requires Valid(st) && (st.phase.BodyIdentity? || st.phase.ChunkData?) && |b| <= st.left
    ensures var end := if st.phase.BodyIdentity? then MessageDone else ChunkDataAlmostDone;
            Leads(st, b, State(if |b| == st.left then end else st.phase, st.left - |b|, st.nread), b)
    decreases |b|
  {
    if b != [] {
      var (u, out) := Step(st, b[0]);
      if |b| > 1 {
        FeedPlain(u, b[1..]);
        assert [b[0]] + b[1..] == b;
      } else {
        assert b[1..] == [] && Feed(u, []) == Fed(u, [], 0);
      }
    }
  }

  /** The body is the first `left` bytes, and nothing behind them is taken. */
  lemma IdentityBody(st: State, body: Bytes, rest: Bytes)
    requires Valid(st) && st.phase.BodyIdentity? && |body| == st.left
    ensures Feed(st, body + rest) == Fed(State(MessageDone, 0, st.nread), body, |body|)
  {
    FeedPlain(st, body);
    FeedConcat(st, body, rest);
  }

  // ---- the chunked coding (section 4.1 of RFC 7230) ----

  /** The size of a chunk in hexadecimal digits, the parameters behind it, and its data. */
  datatype Chunk = Chunk(digits: Bytes, ext: Bytes, data: Bytes)

  function Ascii(s: string): (b: Bytes)
    requires forall i :: 0 <= i < |s| ==> s[i] < 128 as char
    ensures |b| == |s|
  {
    seq(|s|, i requires 0 <= i < |s| => s[i] as int)
  }

  const LOWER := "0123456789abcdef"
  const UPPER := "0123456789ABCDEF"

  /** c is the hexadecimal digit k in either case. */
  predicate IsHex(c: byte, k: nat) {
    k < 16 && (c == LOWER[k] as int || c == UPPER[k] as int)
  }

  /** ds are hexadecimal digits of n, perhaps with zeros in front. */
  predicate Spells(ds: Bytes, n: nat)
    decreases |ds|
  {
    if ds == [] then n == 0
    else IsHex(ds[|ds| - 1], n % 16) && Spells(ds[..|ds| - 1], n / 16)
  }

  /** n in hexadecimal digits of one case. */
  function SizeDigits(n: nat, upper: bool): (ds: Bytes)
    ensures ds != [] && Spells(ds, n)
  {
    var d := [if upper then UPPER[n % 16] as int else LOWER[n % 16] as int];
    if n < 16 then d else SizeDigits(n / 16, upper) + d
  }

  function HexFrom(v: nat, ds: Bytes): nat
    requires AllHex(ds)
    decreases |ds|
  {
    if ds == [] then v else HexFrom(16 * v + Unhex(ds[0]), ds[1..])
  }

  predicate AllHex(ds: Bytes) {
    forall i :: 0 <= i < |ds| ==> Unhex(ds[i]) >= 0
  }

  predicate IsExt(ext: Bytes) {
    ext != [] ==> (ext[0] == ';' as int || ext[0] == ' ' as int) && '\r' as int !in ext
  }

  predicate WellFormed(c: Chunk) {
    && c.digits != [] && Spells(c.digits, |c.data|) && IsExt(c.ext)
    && |c.digits| + |c.ext| + 2 <= 81920 && |c.data| <= 0xFFFF_FFFF_FFFF_FFEF
  }

  function SizeLine(c: Chunk): Bytes {
    c.digits + c.ext + Ascii("\r\n")
  }

  /** A message is a list of chunks with data, and one without. */
  predicate IsMessage(cs: seq<Chunk>, last: Chunk) {
    && (forall i :: 0 <= i < |cs| ==> WellFormed(cs[i]) && cs[i].data != [])
    && WellFormed(last) && last.data == []
  }

  function EncodeChunks(cs: seq<Chunk>): Bytes {
    if cs == [] then [] else SizeLine(cs[0]) + cs[0].data + Ascii("\r\n") + EncodeChunks(cs[1..])
  }

  function Data(cs: seq<Chunk>): Bytes {
    if cs == [] then [] else cs[0].data + Data(cs[1..])
  }

  // ---- hexadecimal digits ----

  /** What a byte counts for, and which bytes are refused. */
  lemma UnhexMeans(c: byte, k: nat)
    ensures IsHex(c, k) <==> Unhex(c) == k
  {}

  lemma {:induction false} HexLast(v: nat, ds: Bytes)
    requires AllHex(ds) && ds != []
    ensures HexFrom(v, ds) == 16 * HexFrom(v, ds[..|ds| - 1]) + Unhex(ds[|ds| - 1])
    decreases |ds|
  {
    if |ds| > 1 {
      assert ds[1..][..|ds| - 2] == ds[..|ds| - 1][1..];
      HexLast(16 * v + Unhex(ds[0]), ds[1..]);
    } else {
      assert ds[..0] == [];
    }
  }

  lemma {:induction false} SpellsHex(ds: Bytes, n: nat)
    ensures Spells(ds, n) <==> AllHex(ds) && HexFrom(0, ds) == n
    decreases |ds|
  {
    if ds != [] {
      var front, c := ds[..|ds| - 1], ds[|ds| - 1];
      SpellsHex(front, n / 16);
      UnhexMeans(c, n % 16);
      if AllHex(ds) {
        HexLast(0, ds);
      } else if AllHex(front) {
        assert forall i :: 0 <= i < |front| ==> Unhex(ds[i]) == Unhex(front[i]);
      }
    }
  }

  lemma LineEnd()
    ensures Ascii("\r\n") == [CR] + [LF]
  {
    assert Ascii("\r\n") == [13, 10];
  }

  lemma {:induction false} HexGrows(v: nat, ds: Bytes)
    requires AllHex(ds)
    ensures HexFrom(v, ds) >= v
    ensures ds != [] ==> HexFrom(v, ds) >= 16 * v
    decreases |ds|
  {
    if ds != [] {
      HexGrows(16 * v + Unhex(ds[0]), ds[1..]);
    }
  }

  lemma {:induction false} FeedDigits(st: State, ds: Bytes)
    requires Valid(st) && st.phase.ChunkSize? && AllHex(ds)
    requires st.nread + |ds| <= MAX_HEADER_SIZE && HexFrom(st.left, ds) <= ULLONG_MAX - 16
    ensures HexFrom(st.left, ds) < ULLONG_MAX
    ensures Leads(st, ds, State(ChunkSize, HexFrom(st.left, ds), st.nread + |ds|), [])
    decreases |ds|
  {
    if ds != [] {
      HexGrows(st.left, ds);
      var u := State(ChunkSize, 16 * st.left + Unhex(ds[0]), st.nread + 1);
      assert ds[0] != CR;
      assert Step(st, ds[0]) == (u, []);
      FeedDigits(u, ds[1..]);
      LeadsOne(st, ds[0]);
      LeadsOn(st, [ds[0]], u, [], ds[1..], State(ChunkSize, HexFrom(st.left, ds), st.nread + |ds|), []);
      assert [ds[0]] + ds[1..] == ds;
    }
  }

  lemma {:induction false} FeedParameters(st: State, ext: Bytes)
    requires Valid(st) && st.phase.ChunkParameters? && CR !in ext && st.nread + |ext| <= MAX_HEADER_SIZE
    ensures Leads(st, ext, State(ChunkParameters, st.left, st.nread + |ext|), [])
    decreases |ext|
  {
    if ext != [] {
      var u := State(ChunkParameters, st.left, st.nread + 1);
      FeedParameters(u, ext[1..]);
      LeadsOne(st, ext[0]);
      LeadsOn(st, [ext[0]], u, [], ext[1..], State(ChunkParameters, st.left, st.nread + |ext|), []);
      assert [ext[0]] + ext[1..] == ext;
    }
  }

  lemma FeedExt(st: State, ext: Bytes)
    requires Valid(st) && st.phase.ChunkSize? && IsExt(ext) && st.nread + |ext| + 2 <= MAX_HEADER_SIZE
    ensures Leads(st, ext + [CR] + [LF], State(if st.left == 0 then Trailer else ChunkData, st.left, 0), [])
  {
    var v := State(if ext == [] then ChunkSize else ChunkParameters, st.left, st.nread + |ext|);
    if ext == [] {
      assert Leads(st, ext, v, []);
    } else {
      var u := State(ChunkParameters, st.left, st.nread + 1);
      LeadsOne(st, ext[0]);
      FeedParameters(u, ext[1..]);
      LeadsOn(st, [ext[0]], u, [], ext[1..], v, []);
      assert [ext[0]] + ext[1..] == ext;
    }
    var w := State(ChunkSizeAlmostDone, st.left, v.nread + 1);
    LeadsOne(v, CR);
    LeadsOn(st, ext, v, [], [CR], w, []);
    LeadsOne(w, LF);
    LeadsOn(st, ext + [CR], w, [], [LF], State(if st.left == 0 then Trailer else ChunkData, st.left, 0), []);
  }

  const START: State := State(ChunkSizeStart, 0, 0)

  lemma FeedSizeLine(c: Chunk)
    requires WellFormed(c)
    ensures Leads(START, SizeLine(c), State(if c.data == [] then Trailer else ChunkData, |c.data|, 0), [])
  {
    hide Step, Feed;
    LineEnd();
    SpellsHex(c.digits, |c.data|);
    FeedLine(c.digits, c.ext);
    assert SizeLine(c) == c.digits + c.ext + [CR] + [LF];
  }

  lemma FeedLine(digits: Bytes, ext: Bytes)
    requires digits != [] && AllHex(digits) && IsExt(ext) && HexFrom(0, digits) <= ULLONG_MAX - 16
    requires |digits| + |ext| + 2 <= MAX_HEADER_SIZE
    ensures var n := HexFrom(0, digits);
            Leads(START, digits + ext + [CR] + [LF], State(if n == 0 then Trailer else ChunkData, n, 0), [])
  {
    hide Step, Feed, Leads, HexFrom;
    FeedNumber(digits);
    var n := HexFrom(0, digits);
    var v := State(ChunkSize, n, |digits|);
    FeedExt(v, ext);
    LeadsQuietly(START, digits, v, ext + [CR] + [LF], State(if n == 0 then Trailer else ChunkData, n, 0),
                 digits + ext + [CR] + [LF]);
  }

  lemma FeedNumber(digits: Bytes)
    requires digits != [] && AllHex(digits) && HexFrom(0, digits) <= ULLONG_MAX - 16 && |digits| + 2 <= MAX_HEADER_SIZE
    ensures Leads(START, digits, State(ChunkSize, HexFrom(0, digits), |digits|), [])
  {
    hide Step, Feed, Leads;
    var d := digits[0];
    var u := State(ChunkSize, Unhex(d), 1);
    assert Step(START, d) == (u, []) by { FirstDigit(d); }
    LeadsOne(START, d);
    FeedDigits(u, digits[1..]);
    LeadsQuietly(START, [d], u, digits[1..], State(ChunkSize, HexFrom(0, digits), |digits|), digits);
  }

  /** Two runs that add nothing to the body. */
  lemma LeadsQuietly(st: State, a: Bytes, u: State, b: Bytes, v: State, all: Bytes)
    requires Leads(st, a, u, []) && !Ended(u.phase) && Leads(u, b, v, []) && all == a + b
    ensures Leads(st, all, v, [])
  {
    LeadsOn(st, a, u, [], b, v, []);
  }

  lemma FirstDigit(d: byte)
    requires Unhex(d) >= 0
    ensures Step(START, d) == (State(ChunkSize, Unhex(d), 1), [])
  {}

  lemma FeedChunk(c: Chunk)
    requires WellFormed(c) && c.data != []
    ensures Leads(START, SizeLine(c) + c.data + Ascii("\r\n"), START, c.data)
  {
    hide Feed;
    LineEnd();
    assert SizeLine(c) + c.data + Ascii("\r\n") == SizeLine(c) + c.data + [CR] + [LF];
    FeedSizeLine(c);
    var u := State(ChunkData, |c.data|, 0);
    FeedPlain(u, c.data);
    var v := State(ChunkDataAlmostDone, 0, 0);
    LeadsOn(START, SizeLine(c), u, [], c.data, v, c.data);
    LeadsOne(v, CR);
    var w := State(ChunkDataDone, 0, 0);
    LeadsOn(START, SizeLine(c) + c.data, v, [] + c.data, [CR], w, []);
    LeadsOne(w, LF);
    LeadsOn(START, SizeLine(c) + c.data + [CR], w, c.data + [], [LF], START, []);
    assert [] + c.data + [] + [] == c.data;
  }

  lemma {:induction false} FeedChunks(cs: seq<Chunk>)
    requires forall i :: 0 <= i < |cs| ==> WellFormed(cs[i]) && cs[i].data != []
    ensures Leads(START, EncodeChunks(cs), START, Data(cs))
  {
    if cs != [] {
      hide Feed, WellFormed;
      FeedChunk(cs[0]);
      FeedChunks(cs[1..]);
      LeadsOn(START, SizeLine(cs[0]) + cs[0].data + Ascii("\r\n"), START, cs[0].data,
              EncodeChunks(cs[1..]), START, Data(cs[1..]));
    }
  }

  function Power16(k: nat): (p: nat)
    ensures p > 0
  {
    if k == 0 then 1 else 16 * Power16(k - 1)
  }

  lemma Powers()
    ensures Power16(16) == 0x1_0000_0000_0000_0000
  {
    assert Power16(4) == 0x1_0000;
    assert Power16(8) == 16 * 16 * 16 * 16 * Power16(4);
    assert Power16(12) == 16 * 16 * 16 * 16 * Power16(8);
  }

  lemma {:induction false} DigitsAtMost(n: nat, upper: bool, k: nat)
    requires k > 0 && n < Power16(k)
    ensures |SizeDigits(n, upper)| <= k
    decreases k
  {
    if n >= 16 {
      assert Power16(1) == 16 * Power16(0) == 16;
      DigitsAtMost(n / 16, upper, k - 1);
    }
  }

  /** The size line of every number, in either case, is read as that number. */
  lemma SizeRead(n: nat, upper: bool)
    requires n <= 0xFFFF_FFFF_FFFF_FFEF
    ensures Leads(START, SizeDigits(n, upper) + Ascii("\r\n"), State(if n == 0 then Trailer else ChunkData, n, 0), [])
  {
    hide Feed, Step, HexFrom, SizeDigits;
    var ds := SizeDigits(n, upper);
    Powers();
    DigitsAtMost(n, upper, 16);
    LineEnd();
    SpellsHex(ds, n);
    FeedLine(ds, []);
    assert ds + Ascii("\r\n") == ds + [] + [CR] + [LF];
  }

  /** A byte that is no digit is refused where a size starts, and never goes on with one. */
  lemma DigitRefused(c: byte, st: State)
    requires (forall k: nat :: !IsHex(c, k)) && Valid(st)
    ensures Step(START, c).0.phase == Error(InvalidChunkSize)
    ensures st.phase.ChunkSize? ==> !Step(st, c).0.phase.ChunkSize?
  {
    if Unhex(c) >= 0 {
      UnhexMeans(c, Unhex(c));
    }
  }

  /** What else is refused, and as what: a size line of more than 81920 bytes; a byte in a size that is
      no digit, space, semicolon or line end; a size above 2^64 - 17; a line end that is not there. */
  lemma Refused(st: State, c: byte)
    requires Valid(st) && !Ended(st.phase)
    ensures var p := Step(st, c).0.phase;
            if ParsingHeader(st.phase) && st.nread == 81920 then p == Error(HeaderOverflow)
            else match st.phase
              case BodyIdentity => !p.Error?
              case ChunkSizeStart => p.Error? ==> p.e == InvalidChunkSize
              case ChunkSize =>
                && (p == Error(InvalidChunkSize) <==> (forall k: nat :: !IsHex(c, k)) && c != 13 && c != ' ' as int && c != ';' as int)
                && (p == Error(InvalidContentLength) <==> exists k: nat :: IsHex(c, k) && 16 * st.left + k > 0xFFFF_FFFF_FFFF_FFEF)
                && (p.Error? ==> p.e == InvalidChunkSize || p.e == InvalidContentLength)
              case ChunkParameters => !p.Error?
              case ChunkSizeAlmostDone => p == (if c != 10 then Error(Strict) else if st.left == 0 then Trailer else ChunkData)
              case ChunkData => !p.Error?
              case ChunkDataAlmostDone => p == if c != 13 then Error(Strict) else ChunkDataDone
              case ChunkDataDone => p == if c != 10 then Error(Strict) else ChunkSizeStart
  {
    if Unhex(c) >= 0 {
      UnhexMeans(c, Unhex(c));
    }
    forall k: nat | IsHex(c, k) ensures Unhex(c) == k {
      UnhexMeans(c, k);
    }
  }

  /** A chunked message gives the data of its chunks, and nothing behind the last chunk is taken. */
  lemma ChunkedBody(cs: seq<Chunk>, last: Chunk, rest: Bytes)
    requires IsMessage(cs, last)
    ensures Feed(START, EncodeChunks(cs) + SizeLine(last) + rest) ==
            Fed(State(Trailer, 0, 0), Data(cs), |EncodeChunks(cs) + SizeLine(last)|)
  {
    hide Feed, Step;
    FeedChunks(cs);
    FeedSizeLine(last);
    var done := State(Trailer, 0, 0);
    LeadsOn(START, EncodeChunks(cs), START, Data(cs), SizeLine(last), done, []);
    assert Data(cs) + [] == Data(cs);
    FeedConcat(START, EncodeChunks(cs) + SizeLine(last), rest);
  }

  // ---- and nothing else is taken for a chunked message ----

  lemma FeedsOn(st: State, b: Bytes)
    requires Valid(st) && !Ended(st.phase) && Feed(st, b).st.phase.Trailer?
    ensures b != [] && !Step(st, b[0]).0.phase.Error? && Feed(Step(st, b[0]).0, b[1..]).st.phase.Trailer?
  {
    hide Step;
  }

  /** The bytes up to the end of a size line, read from the parameters on. */
  lemma {:induction false} SplitExt(st: State, b: Bytes) returns (ext: Bytes)
    requires Valid(st) && st.phase.ChunkParameters? && Feed(st, b).st.phase.Trailer?
    ensures CR !in ext && ext + [CR] + [LF] <= b && st.nread + |ext| + 2 <= MAX_HEADER_SIZE
    decreases |b|
  {
    hide Feed;
    FeedsOn(st, b);
    var u := Step(st, b[0]).0;
    if b[0] == CR {
      ext := [];
      LineEnds(u, b[1..]);
    } else {
      ext := SplitExt(u, b[1..]);
      ext := [b[0]] + ext;
    }
  }

  lemma LineEnds(st: State, b: Bytes)
    requires Valid(st) && st.phase.ChunkSizeAlmostDone? && Feed(st, b).st.phase.Trailer?
    ensures [LF] <= b && st.nread + 1 <= MAX_HEADER_SIZE
  {
    hide Feed;
    FeedsOn(st, b);
  }

  /** And read from behind the first digit on. */
  lemma {:induction false} SplitSize(st: State, b: Bytes) returns (ds: Bytes, ext: Bytes)
    requires Valid(st) && st.phase.ChunkSize? && st.left <= ULLONG_MAX - 16 && Feed(st, b).st.phase.Trailer?
    ensures AllHex(ds) && IsExt(ext) && HexFrom(st.left, ds) <= ULLONG_MAX - 16
    ensures ds + ext + [CR] + [LF] <= b && st.nread + |ds| + |ext| + 2 <= MAX_HEADER_SIZE
    decreases |b|
  {
    hide Feed;
    FeedsOn(st, b);
    var u := Step(st, b[0]).0;
    ds, ext := [], [];
    if b[0] == CR {
      LineEnds(u, b[1..]);
    } else if Unhex(b[0]) == -1 {
      ext := SplitExt(u, b[1..]);
      ext := [b[0]] + ext;
    } else {
      ds, ext := SplitSize(u, b[1..]);
      ds := [b[0]] + ds;
      assert ds[1..] + ext + [CR] + [LF] <= b[1..];
    }
  }

  /** The data of a chunk is all there, with a line end behind it. */
  lemma SplitData(n: nat, b: Bytes)
    requires 0 < n < ULLONG_MAX && Feed(State(ChunkData, n, 0), b).st.phase.Trailer?
    ensures n + 2 <= |b| && b[n] == CR && b[n + 1] == LF
  {
    hide Feed;
    var st := State(ChunkData, n, 0);
    if |b| <= n {
      FeedPlain(st, b);
    }
    FeedRun(st, b, n);
    var u := State(ChunkDataAlmostDone, 0, 0);
    FeedsOn(u, b[n..]);
    FeedsOn(State(ChunkDataDone, 0, 0), b[n + 1..]);
  }

  /** b starts with the last chunk, or with one that has data. */
  lemma SplitChunk(b: Bytes) returns (c: Chunk, rest: Bytes)
    requires Feed(START, b).st.phase.Trailer?
    ensures WellFormed(c)
    ensures b == (if c.data == [] then SizeLine(c) else SizeLine(c) + c.data + Ascii("\r\n")) + rest
  {
    hide Feed, Step, HexFrom, Spells;
    LineEnd();
    var digits, ext := SplitLine(b);
    var n, line := HexFrom(0, digits), digits + ext + [CR] + [LF];
    var l := |line|;
    FeedLine(digits, ext);
    FeedConcat(START, line, b[l..]);
    assert line + b[l..] == b && line == digits + ext + Ascii("\r\n");
    SpellsHex(digits, n);
    if n == 0 {
      c, rest := Chunk(digits, ext, []), b[l..];
    } else {
      SplitData(n, b[l..]);
      c, rest := Chunk(digits, ext, b[l..l + n]), b[l + n + 2..];
      assert b[l..][n] == b[l + n] && b[l..][n + 1] == b[l + n + 1];
      assert b == line + b[l..l + n] + [CR] + [LF] + rest;
      assert b == line + c.data + Ascii("\r\n") + rest;
    }
  }

  /** What the parser takes for a chunked message is one, and its body is the data of its chunks. */
  lemma {:induction false} TakenIsChunked(b: Bytes) returns (cs: seq<Chunk>, last: Chunk)
    requires Feed(START, b).st.phase.Trailer?
    ensures IsMessage(cs, last) && b[..Feed(START, b).taken] == EncodeChunks(cs) + SizeLine(last)
    ensures Feed(START, b).body == Data(cs)
    decreases |b|
  {
    hide Feed, Step, WellFormed, SizeLine;
    var c, rest := SplitChunk(b);
    if c.data == [] {
      cs, last := [], c;
      ChunkedBody(cs, last, rest);
      assert EncodeChunks(cs) + SizeLine(last) == SizeLine(last);
    } else {
      var front := SizeLine(c) + c.data + Ascii("\r\n");
      FeedChunk(c);
      FeedConcat(START, front, rest);
      cs, last := TakenIsChunked(rest);
      assert b[..|front| + Feed(START, rest).taken] == front + rest[..Feed(START, rest).taken];
      cs := OneMore(c, cs, last, front);
    }
  }

  lemma OneMore(c: Chunk, cs: seq<Chunk>, last: Chunk, front: Bytes) returns (all: seq<Chunk>)
    requires IsMessage(cs, last) && WellFormed(c) && c.data != [] && front == SizeLine(c) + c.data + Ascii("\r\n")
    ensures IsMessage(all, last) && Data(all) == c.data + Data(cs)
    ensures EncodeChunks(all) + SizeLine(last) == front + (EncodeChunks(cs) + SizeLine(last))
  {
    hide WellFormed, SizeLine;
    all := [c] + cs;
    assert all[1..] == cs;
  }

  lemma SplitLine(b: Bytes) returns (digits: Bytes, ext: Bytes)
    requires Feed(START, b).st.phase.Trailer?
    ensures digits != [] && AllHex(digits) && IsExt(ext) && HexFrom(0, digits) <= ULLONG_MAX - 16
    ensures digits + ext + [CR] + [LF] <= b && |digits| + |ext| + 2 <= MAX_HEADER_SIZE
  {
    hide Feed;
    FeedsOn(START, b);
    var u := Step(START, b[0]).0;
    var ds;
    ds, ext := SplitSize(u, b[1..]);
    digits := [b[0]] + ds;
  }

  // ---- steps of the parser's loop ----

  /** One byte is taken. */
  lemma FeedOne(st: State, b: Bytes)
    requires Valid(st) && !Ended(st.phase) && b != []
    ensures var (u, out) := Step(st, b[0]);
            && (u.phase.Error? ==> Feed(st, b) == Fed(u, out, 0))
            && (!u.phase.Error? ==>
                  var g := Feed(u, b[1..]); Feed(st, b) == Fed(g.st, out + g.body, 1 + g.taken))
  {
    hide Step;
  }

  /** A run of body bytes is taken. */
  lemma FeedRun(st: State, b: Bytes, n: nat)
    requires Valid(st) && (st.phase.BodyIdentity? || st.phase.ChunkData?) && 0 < n <= st.left && n <= |b|
    ensures var end := if st.phase.BodyIdentity? then MessageDone else ChunkDataAlmostDone;
            var u := State(if n == st.left then end else st.phase, st.left - n, st.nread);
            && Valid(u)
            && (u.phase == MessageDone ==> Feed(st, b) == Fed(u, b[..n], n))
            && (u.phase != MessageDone ==>
                  var g := Feed(u, b[n..]); Feed(st, b) == Fed(g.st, b[..n] + g.body, n + g.taken))
  {
    hide Feed, Step;
    FeedPlain(st, b[..n]);
    FeedConcat(st, b[..n], b[n..]);
    assert b == b[..n] + b[n..];
  }
}
