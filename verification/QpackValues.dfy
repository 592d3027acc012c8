/** Nested qpack values: packing, reading back, and skipping. */
module QpackValues {
  import opened Common
  import opened QpackTokens

  /** Arrays and maps hold their items in a row, a map key and value by turns.  The short forms
      carry the number of items (of pairs) in the type, the open forms end with a closing mark. */
  datatype Value =
    | Atom(t: Token)
    | Short(isMap: bool, items: seq<Value>)
    | Open(isMap: bool, items: seq<Value>)

  function Group(isMap: bool): (g: nat)
    ensures g == 1 || g == 2
  {
    if isMap then 2 else 1
  }

  function OpenMark(isMap: bool): byte {
    if isMap then QP_MAP_OPEN else QP_ARRAY_OPEN
  }

  function CloseMark(isMap: bool): byte {
    if isMap then QP_MAP_CLOSE else QP_ARRAY_CLOSE
  }

  function ShortMark(isMap: bool, n: nat): byte
    requires n <= 5
  {
    (if isMap then QP_MAP0 else QP_ARRAY0) + n
  }

  predicate IsAtom(t: Token) {
    Packable(t) && (t.Mark? ==> QP_TRUE <= t.tp <= QP_NULL)
  }

  predicate WellFormed(v: Value) {
    match v
    case Atom(t) => IsAtom(t)
    case Short(m, items) => |items| % Group(m) == 0 && |items| / Group(m) <= 5 && AllWellFormed(items)
    case Open(m, items) => |items| % Group(m) == 0 && AllWellFormed(items)
  }

  predicate AllWellFormed(vs: seq<Value>) {
    vs == [] || (WellFormed(vs[0]) && AllWellFormed(vs[1..]))
  }

  /** The calls of qp_add_* for a value, in bytes. */
  function Encode(v: Value): (b: Bytes)
    requires WellFormed(v)
  {
    match v
    case Atom(t) => Enc(t)
    case Short(m, items) => [ShortMark(m, |items| / Group(m))] + EncodeAll(items)
    case Open(m, items) => [OpenMark(m)] + EncodeAll(items) + [CloseMark(m)]
  }

  function EncodeAll(vs: seq<Value>): Bytes
    requires AllWellFormed(vs)
  {
    if vs == [] then [] else Encode(vs[0]) + EncodeAll(vs[1..])
  }

  /** The value that comes back: -0.0 is kept as 0.0. */
  function StoredValue(v: Value): Value {
    match v
    case Atom(t) => Atom(Stored(t))
    case Short(m, items) => Short(m, StoredAll(items))
    case Open(m, items) => Open(m, StoredAll(items))
  }

  function StoredAll(vs: seq<Value>): (r: seq<Value>)
    ensures |r| == |vs|
  {
    if vs == [] then [] else [StoredValue(vs[0])] + StoredAll(vs[1..])
  }

  // ---- reading ----

  type Got<A> = Option<(A, nat)>

  /** The value at the start of b and its number of bytes; None when there is no complete value. */
  function Read(b: Bytes): (r: Got<Value>)
    ensures r.Some? ==> 0 < r.value.1 <= |b|
    decreases |b|, 0
  {
    var (t, n) := Next(b);
    if IsAtomRead(t) then Some((Atom(t), n))
    else if t.Mark? && t.tp < QP_MAP0 then Moved(b, n, Items(false, ReadMany(b[n..], t.tp - QP_ARRAY0)))
    else if t.Mark? && t.tp < QP_TRUE then Moved(b, n, Items(true, ReadMany(b[n..], 2 * (t.tp - QP_MAP0))))
    else if t == Mark(QP_ARRAY_OPEN) then Moved(b, n, OpenItems(false, ReadOpen(b[n..], false)))
    else if t == Mark(QP_MAP_OPEN) then Moved(b, n, OpenItems(true, ReadOpen(b[n..], true)))
    else None
  }

  predicate IsAtomRead(t: Token) {
    t.Raw? || t.Int? || t.Real? || (t.Mark? && QP_TRUE <= t.tp <= QP_NULL)
  }

  function Items(isMap: bool, r: Got<seq<Value>>): (v: Got<Value>)
    ensures v.Some? <==> r.Some?
    ensures v.Some? ==> v.value.1 == r.value.1
  {
    if r.None? then None else Some((Short(isMap, r.value.0), r.value.1))
  }

  function OpenItems(isMap: bool, r: Got<seq<Value>>): (v: Got<Value>)
    ensures v.Some? <==> r.Some?
    ensures v.Some? ==> v.value.1 == r.value.1
  {
    if r.None? then None else Some((Open(isMap, r.value.0), r.value.1))
  }

  function Moved(b: Bytes, n: nat, r: Got<Value>): (v: Got<Value>)
    requires 0 < n <= |b| && (r.Some? ==> n + r.value.1 <= |b|)
    ensures v.Some? ==> 0 < v.value.1 <= |b|
  {
    if r.None? then None else Some((r.value.0, n + r.value.1))
  }

  /** k values in a row. */
  function ReadMany(b: Bytes, k: nat): (r: Got<seq<Value>>)
    ensures r.Some? ==> r.value.1 <= |b| && (k > 0 ==> r.value.1 > 0)
    decreases |b|, 1, k
  {
    if k == 0 then Some(([], 0))
    else
      var first := Read(b);
      if first.None? then None
      else
        var rest := ReadMany(b[first.value.1..], k - 1);
        if rest.None? then None
        else Some(([first.value.0] + rest.value.0, first.value.1 + rest.value.1))
  }

  /** Values, for a map in pairs, up to the closing mark. */
  function ReadOpen(b: Bytes, isMap: bool): (r: Got<seq<Value>>)
    ensures r.Some? ==> r.value.1 <= |b|
    decreases |b|, 2
  {
    if b != [] && b[0] == CloseMark(isMap) then Some(([], 1))
    else
      var first := ReadMany(b, Group(isMap));
      if first.None? then None
      else
        var rest := ReadOpen(b[first.value.1..], isMap);
        if rest.None? then None
        else Some((first.value.0 + rest.value.0, first.value.1 + rest.value.1))
  }

  // ---- what was packed is read back ----

  lemma {:induction false} ReadEncode(v: Value, s: Bytes)
    requires WellFormed(v)
    ensures Read(Encode(v) + s) == Some((StoredValue(v), |Encode(v)|))
    decreases v, 0
  {
    hide ReadMany, ReadOpen, EncodeAll, StoredAll;
    var b := Encode(v) + s;
    match v
    case Atom(t) =>
      NextEnc(t, s);
    case Short(m, items) =>
      assert b[1..] == EncodeAll(items) + s;
      ReadManyEncode(items, s);
    case Open(m, items) =>
      assert b[1..] == EncodeAll(items) + ([CloseMark(m)] + s);
      ReadOpenEncode(items, m, s);
  }

  lemma {:induction false} ReadManyEncode(vs: seq<Value>, s: Bytes)
    requires AllWellFormed(vs)
    ensures ReadMany(EncodeAll(vs) + s, |vs|) == Some((StoredAll(vs), |EncodeAll(vs)|))
    decreases vs, 1
  {
    hide Read, Encode, StoredValue, WellFormed;
    if vs == [] {
    } else {
      var b := EncodeAll(vs) + s;
      assert b == Encode(vs[0]) + (EncodeAll(vs[1..]) + s);
      ReadEncode(vs[0], EncodeAll(vs[1..]) + s);
      assert b[|Encode(vs[0])|..] == EncodeAll(vs[1..]) + s;
      ReadManyEncode(vs[1..], s);
    }
  }

  lemma {:induction false} ReadOpenEncode(vs: seq<Value>, m: bool, s: Bytes)
    requires AllWellFormed(vs) && |vs| % Group(m) == 0
    ensures ReadOpen(EncodeAll(vs) + ([CloseMark(m)] + s), m) == Some((StoredAll(vs), |EncodeAll(vs)| + 1))
    decreases vs, 2
  {
    hide Read, ReadMany, EncodeAll, StoredAll, AllWellFormed;
    var b := EncodeAll(vs) + ([CloseMark(m)] + s);
    if vs == [] {
      assert EncodeAll(vs) == [] && StoredAll(vs) == [] by { NoValues(); }
    } else {
      var g := Group(m);
      var first, rest := vs[..g], vs[g..];
      if g == |vs| {
        assert first == vs;
      }
      DivideWellFormed(vs, g);
      DivideEncode(vs, g);
      DivideStored(vs, g);
      StartsWithValue(vs, m, s);
      ReadManyEncode(first, EncodeAll(rest) + ([CloseMark(m)] + s));
      assert b == EncodeAll(first) + (EncodeAll(rest) + ([CloseMark(m)] + s));
      assert b[|EncodeAll(first)|..] == EncodeAll(rest) + ([CloseMark(m)] + s);
      ReadOpenEncode(rest, m, s);
    }
  }

  lemma NoValues()
    ensures EncodeAll([]) == [] && StoredAll([]) == []
  {}

  lemma StartsWithValue(vs: seq<Value>, m: bool, s: Bytes)
    requires AllWellFormed(vs) && vs != []
    ensures var b := EncodeAll(vs) + ([CloseMark(m)] + s); b != [] && b[0] != CloseMark(m)
  {
    FirstByte(vs[0]);
  }

  lemma {:induction false} DivideWellFormed(vs: seq<Value>, g: nat)
    requires AllWellFormed(vs) && g <= |vs|
    ensures AllWellFormed(vs[..g]) && AllWellFormed(vs[g..])
  {
    hide WellFormed;
    if g > 0 {
      DivideWellFormed(vs[1..], g - 1);
      assert vs[1..][..g - 1] == vs[..g][1..];
      assert vs[1..][g - 1..] == vs[g..];
    } else {
      assert vs[0..] == vs;
    }
  }

  lemma {:induction false} DivideEncode(vs: seq<Value>, g: nat)
    requires AllWellFormed(vs) && g <= |vs| && AllWellFormed(vs[..g]) && AllWellFormed(vs[g..])
    ensures EncodeAll(vs) == EncodeAll(vs[..g]) + EncodeAll(vs[g..])
  {
    hide Encode, WellFormed;
    if g > 0 {
      assert vs[1..][..g - 1] == vs[..g][1..];
      assert vs[1..][g - 1..] == vs[g..];
      DivideEncode(vs[1..], g - 1);
    } else {
      assert vs[0..] == vs;
    }
  }

  lemma {:induction false} DivideStored(vs: seq<Value>, g: nat)
    requires g <= |vs|
    ensures StoredAll(vs) == StoredAll(vs[..g]) + StoredAll(vs[g..])
  {
    hide StoredValue;
    if g > 0 {
      assert vs[1..][..g - 1] == vs[..g][1..];
      assert vs[1..][g - 1..] == vs[g..];
      DivideStored(vs[1..], g - 1);
    } else {
      assert vs[0..] == vs;
    }
  }

  lemma FirstByte(v: Value)
    requires WellFormed(v)
    ensures Encode(v) != [] && Encode(v)[0] < QP_ARRAY_CLOSE
  {}
}
