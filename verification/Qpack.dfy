/** The qpack packer and unpacker. */
module Qpack {
  import opened Common
  import opened Words
  import opened QpackTokens
  import opened QpackValues
  import opened QpackSkip
  import opened QpackWrap

  // ---- the unpacker ----

  /** The cursor and the end are addresses; here the cursor is relative to the first byte. */
  class Unpacker {
    const base: nat
    const data: Bytes
    var pt: int

    /** The cursor stands at a byte or at the end. */
    predicate Valid()
      reads this
    {
      0 <= pt <= |data| && Placed(Where())
    }

    function Where(): Memory {
      Memory(base, data)
    }

    /** What is still to come. */
    function Rest(): Bytes
      requires Valid()
      reads this
    {
      data[pt..]
    }

    /** qp_unpacker_init */
    constructor (base: nat, data: Bytes)
      requires Placed(Memory(base, data))
      ensures Valid() && Rest() == data && this.data == data && this.base == base && pt == 0
    {
      this.base, this.data := base, data;
      pt := 0;
    }

    /** qp_current */
    function Current(): (tp: int)
      requires Valid()
      reads this
      ensures QpackTokens.Next(Rest()).0 != Err ==> tp == TypeOf(QpackTokens.Next(Rest()).0)
    {
      if pt >= |data| then QP_END
      else
        var tp := data[pt];
        if tp < 124 then QP_INT64
        else if tp == 124 then QP_HOOK
        else if tp < 128 then QP_DOUBLE
        else if tp < QP_INT8 then QP_RAW
        else if tp < QP_DOUBLE then QP_INT64
        else tp
    }

    /** QP_UNPACK_CHECK_SZ: whether the address `size` bytes on is computed to lie behind the end. */
    predicate TooFar(size: nat)
      reads this
    {
      (base + pt + size) % UINT64 > base + |data|
    }

    /** A raw string at the cursor. */
    method TakeRaw(size: nat) returns (obj: Token)
      requires Valid() && size < UINT64
      modifies this
      ensures (obj, pt) == CodeRawAt(Where(), old(pt), size)
    {
      if TooFar(size) {
        return Err;
      }
      obj := if base + pt + size < UINT64 then Raw(data[pt..pt + size]) else Wrapped(size);
      pt := (base + pt + size) % UINT64 - base;
    }

    /** The bytes of a word at the cursor, or too few of them. */
    method TakeWord(w: nat, ghost b: Bytes, ghost at: nat) returns (word: Bytes)
      requires Valid() && 0 < w <= 8 && at <= |b| && Rest() == b[at..]
      modifies this
      ensures Valid()
      ensures at + w > |b| ==> word == [] && pt == old(pt)
      ensures at + w <= |b| ==> word == b[at..at + w] && pt == old(pt) + w && Rest() == b[at + w..]
    {
      Modulo(base + pt + w);
      if TooFar(w) {
        return [];
      }
      word := data[pt..pt + w];
      assert word == Rest()[..w] == b[at..at + w];
      pt := pt + w;
      assert Rest() == b[at..][w..] == b[at + w..];
    }

    /** qp_next, for any bytes: it reads what is meant exactly when the length of a string does not
        wrap, and an accepted string without bytes puts the cursor back otherwise. */
    method Next() returns (obj: Token)
      requires Valid()
      modifies this
      ensures (obj, pt) == CodeNext(Where(), old(pt))
      ensures !WrapsAt(Where(), old(pt)) <==> (obj, pt - old(pt)) == QpackTokens.Next(old(Rest()))
      ensures if WrapsAt(Where(), old(pt)) then obj.Wrapped? && pt < old(pt) + 9 else Valid() && pt >= old(pt)
    {
      hide FromLe, Signed, Span, FixedDouble, CodeRawAt, WrapsAt, CodeNext;
      ghost var b := Rest();
      CodeNextExact(Where(), pt);
      NextOf(Where(), pt);
      if pt >= |data| {
        return End;
      }
      var tp := data[pt];
      pt := pt + 1;
      assert Rest() == b[1..];
      if tp < 64 {
        obj := Int(tp);
      } else if tp < 124 {
        obj := Int(63 - tp);
      } else if tp == 124 {
        obj := Hook;
      } else if tp < 128 {
        obj := Real(FixedDouble(tp));
      } else if tp < QP_RAW8 {
        obj := TakeRaw(tp - 128);
      } else if tp < QP_INT8 {
        var w := Width(tp - QP_RAW8);
        var word := TakeWord(w, b, 1);
        if word == [] {
          return Err;
        }
        WordFits(word, w);
        obj := TakeRaw(FromLe(word));
      } else if tp < QP_DOUBLE {
        var w := Width(tp - QP_INT8);
        var word := TakeWord(w, b, 1);
        obj := if word == [] then Err else Int(Signed(FromLe(word), w));
      } else if tp == QP_DOUBLE {
        var word := TakeWord(8, b, 1);
        obj := if word == [] then Err else Real(word);
      } else {
        obj := Mark(tp);
      }
    }

    /** qp_skip_next: when no length that it reaches wraps, it ends, with type and cursor as meant. */
    method SkipNext() returns (tp: int)
      requires Valid() && TameSkip(Where(), pt)
      modifies this
      ensures Valid() && (tp, pt - old(pt)) == Skip(old(Rest()))
      ensures Rest() == old(Rest())[Skip(old(Rest())).1..]
      decreases |data| - pt, 1
    {
      hide QpackTokens.Next, Skip, SkipInside, SkipMany, SkipOpen, CodeNext, Placed,
           WrapsAt, TameSkip, TameInside, TameMany, TameOpen;
      ghost var b, start := Rest(), pt;
      SkipOf(b);
      TameOf(Where(), pt);
      var obj := Next();
      tp := TypeOf(obj);
      assert Rest() == b[pt - start..];
      InsideOf(tp, Rest(), Where(), pt);
      if QP_ARRAY0 <= tp < QP_MAP0 {
        SkipItems(tp - QP_ARRAY0);
      } else if QP_MAP0 <= tp < QP_TRUE {
        SkipItems(2 * (tp - QP_MAP0));
      } else if tp == QP_ARRAY_OPEN {
        SkipToClose(false);
      } else if tp == QP_MAP_OPEN {
        SkipToClose(true);
      }
      DropTwice(data, start, pt - start);
    }

    /** The counted loops of qp_skip_next. */
    method SkipItems(count: nat)
      requires Valid() && TameMany(Where(), pt, count)
      modifies this
      ensures Valid() && pt - old(pt) == SkipMany(old(Rest()), count)
      ensures Rest() == old(Rest())[SkipMany(old(Rest()), count)..]
      decreases |data| - pt, 2
    {
      hide Skip, SkipMany, TameSkip, TameMany;
      ghost var start, total := pt, SkipMany(Rest(), count);
      var left := count;
      while left > 0
        invariant Valid() && pt >= start && 0 <= left <= count
        invariant pt + SkipMany(Rest(), left) == start + total && TameMany(Where(), pt, left)
      {
        OneSkipped(Rest(), left);
        TameFirst(Where(), pt, left);
        var _ := SkipNext();
        left := left - 1;
      }
      NoneSkipped(Rest());
      DropTwice(data, start, pt - start);
    }

    /** The loops of qp_skip_next up to a closing mark. */
    method SkipToClose(isMap: bool)
      requires Valid() && TameOpen(Where(), pt, isMap)
      modifies this
      ensures Valid() && pt - old(pt) == SkipOpen(old(Rest()), isMap)
      decreases |data| - pt, 3
    {
      hide Skip, SkipMany, SkipOpen, StillOpen, TameSkip, TameMany, TameOpen, TameRest;
      ghost var total := pt + SkipOpen(Rest(), isMap);
      OpenStep(Rest(), isMap);
      TameStep(Where(), pt, isMap);
      var tp := SkipNext();
      while tp != QP_END && tp != CloseMark(isMap)
        invariant Valid() && pt >= old(pt)
        invariant pt + StillOpen(tp, Rest(), isMap) == total && TameRest(tp, Where(), pt, isMap)
        decreases |data| - pt, if tp == QP_END then 0 else 1
      {
        OpenItem(tp, Rest(), isMap);
        TameItem(tp, Where(), pt, isMap);
        SkipItems(Group(isMap) - 1);
        OpenStep(Rest(), isMap);
        TameStep(Where(), pt, isMap);
        tp := SkipNext();
      }
      OpenDone(tp, Rest(), isMap);
    }
  }

  lemma InsideOf(tp: int, b: Bytes, m: Memory, pt: nat)
    requires pt <= |m.data| && TameInside(tp, m, pt)
    ensures QP_ARRAY0 <= tp < QP_MAP0 ==> SkipInside(tp, b) == SkipMany(b, tp - QP_ARRAY0) && TameMany(m, pt, tp - QP_ARRAY0)
    ensures QP_MAP0 <= tp < QP_TRUE ==>
              SkipInside(tp, b) == SkipMany(b, 2 * (tp - QP_MAP0)) && TameMany(m, pt, 2 * (tp - QP_MAP0))
    ensures tp == QP_ARRAY_OPEN ==> SkipInside(tp, b) == SkipOpen(b, false) && TameOpen(m, pt, false)
    ensures tp == QP_MAP_OPEN ==> SkipInside(tp, b) == SkipOpen(b, true) && TameOpen(m, pt, true)
    ensures !(QP_ARRAY0 <= tp < QP_TRUE) && tp != QP_ARRAY_OPEN && tp != QP_MAP_OPEN ==> SkipInside(tp, b) == 0
  {
    hide SkipMany, SkipOpen, TameMany, TameOpen;
  }

  lemma WordFits(word: Bytes, w: nat)
    requires |word| == w && (w == 1 || w == 2 || w == 4 || w == 8)
    ensures FromLe(word) < UINT64
  {
    hide FromLe;
    Spans();
  }

  // ---- the packer ----

  class Packer {
    var len: nat
    var bufferSize: nat
    const allocSize: nat
    var buffer: array<byte>

    ghost predicate Valid()
      reads this
    {
      allocSize > 0 && len <= bufferSize == buffer.Length
    }

    /** The packed bytes. */
    ghost function Contents(): Bytes
      requires Valid()
      reads this, buffer
    {
      buffer[..len]
    }

    /** qp_packer_new */
    constructor (allocSize: nat)
      requires allocSize > 0
      ensures Valid() && fresh(buffer) && Contents() == []
    {
      this.allocSize, bufferSize, len := allocSize, allocSize, 0;
      buffer := new byte[allocSize];
    }

    /** QP_RESIZE */
    method Resize(n: nat)
      requires Valid()
      modifies this`buffer, this`bufferSize
      ensures Valid() && len + n <= bufferSize && Contents() == old(Contents())
      ensures buffer == old(buffer) || fresh(buffer)
    {
      if len + n > bufferSize {
        bufferSize := ((len + n) / allocSize + 1) * allocSize;
        Enough(len + n, allocSize);
        var tmp := new byte[bufferSize];
        forall i | 0 <= i < len {
          tmp[i] := buffer[i];
        }
        buffer := tmp;
      }
    }

    /** packer->buffer[packer->len++] = x */
    method Put(x: byte)
      requires Valid() && len < bufferSize
      modifies this`len, buffer
      ensures Valid() && Contents() == old(Contents()) + [x]
      ensures len == old(len) + 1
    {
      buffer[len] := x;
      len := len + 1;
    }

    /** memcpy behind what is packed */
    method Copy(s: Bytes)
      requires Valid() && len + |s| <= bufferSize
      modifies this`len, buffer
      ensures Valid() && Contents() == old(Contents()) + s
      ensures len == old(len) + |s|
    {
      forall i | 0 <= i < |s| {
        buffer[len + i] := s[i];
      }
      len := len + |s|;
    }

    method PutWord(tp: byte, word: Bytes)
      requires Valid() && len + 1 + |word| <= bufferSize
      modifies this`len, buffer
      ensures Valid() && Contents() == old(Contents()) + ([tp] + word)
      ensures len == old(len) + 1 + |word|
    {
      Put(tp);
      Copy(word);
    }

    /** QP_PREPARE_RAW */
    method PrepareRaw(n: nat)
      requires Valid() && n < UINT64
      modifies this, buffer
      ensures Valid() && len + n <= bufferSize && (buffer == old(buffer) || fresh(buffer))
      ensures Contents() == old(Contents()) + RawHeader(n)
    {
      hide Le;
      Resize(9 + n);
      if n < 100 {
        Put(128 + n);
      } else if n <= 0xFF {
        PutWord(QP_RAW8, Le(n, 1));
      } else if n <= 0xFFFF {
        PutWord(QP_RAW8 + 1, Le(n, 2));
      } else if n <= 0xFFFF_FFFF {
        PutWord(QP_RAW8 + 2, Le(n, 4));
      } else {
        PutWord(QP_RAW8 + 3, Le(n, 8));
      }
    }

    /** qp_add_raw */
    method AddRaw(raw: Bytes)
      requires Valid() && |raw| < UINT64
      modifies this, buffer
      ensures Valid() && (buffer == old(buffer) || fresh(buffer))
      ensures Contents() == old(Contents()) + Enc(Raw(raw))
    {
      hide RawHeader;
      PrepareRaw(|raw|);
      Copy(raw);
    }

    /** qp_add_raw_term */
    method AddRawTerm(raw: Bytes)
      requires Valid() && |raw| + 1 < UINT64
      modifies this, buffer
      ensures Valid() && (buffer == old(buffer) || fresh(buffer))
      ensures Contents() == old(Contents()) + Enc(Raw(raw + [0]))
    {
      hide RawHeader;
      PrepareRaw(|raw| + 1);
      Copy(raw);
      Put(0);
    }

    /** qp_add_double */
    method AddDouble(d: Bytes)
      requires Valid() && |d| == 8
      modifies this, buffer
      ensures Valid() && (buffer == old(buffer) || fresh(buffer))
      ensures Contents() == old(Contents()) + Enc(Real(d))
    {
      Resize(9);
      if d == ZERO || d == MINUS_ZERO {
        Put(126);
      } else if d == ONE {
        Put(127);
      } else if d == MINUS_ONE {
        Put(125);
      } else {
        PutWord(QP_DOUBLE, d);
      }
    }

    /** qp_add_int64 */
    method AddInt64(i: int)
      requires Valid() && IsInt64(i)
      modifies this, buffer
      ensures Valid() && (buffer == old(buffer) || fresh(buffer))
      ensures Contents() == old(Contents()) + Enc(Int(i))
    {
      hide Le, Unsigned, Span;
      IntFits(i);
      if -0x80 <= i < 0x80 {
        Resize(2);
        if 0 <= i < 64 {
          Put(i);
        } else if -60 <= i < 0 {
          Put(63 - i);
        } else {
          PutWord(QP_INT8, Le(Unsigned(i, 1), 1));
        }
      } else if -0x8000 <= i < 0x8000 {
        Resize(3);
        PutWord(QP_INT8 + 1, Le(Unsigned(i, 2), 2));
      } else if -0x8000_0000 <= i < 0x8000_0000 {
        Resize(5);
        PutWord(QP_INT8 + 2, Le(Unsigned(i, 4), 4));
      } else {
        Resize(9);
        PutWord(QP_INT64, Le(Unsigned(i, 8), 8));
      }
    }

    /** qp_add_type, qp_add_true, qp_add_false and qp_add_null */
    method AddType(tp: byte)
      requires Valid() && tp >= QP_ARRAY0
      modifies this, buffer
      ensures Valid() && (buffer == old(buffer) || fresh(buffer))
      ensures Contents() == old(Contents()) + Enc(Mark(tp))
    {
      Resize(1);
      Put(tp);
    }

    /** qp_packer_extend */
    method Extend(source: Packer)
      requires Valid() && source.Valid() && source != this && source.buffer != buffer
      modifies this, buffer
      ensures Valid() && (buffer == old(buffer) || fresh(buffer))
      ensures Contents() == old(Contents()) + source.Contents()
    {
      Resize(source.len);
      Copy(source.buffer[..source.len]);
    }

    /** qp_packer_extend_fu: a value at the cursor is copied byte for byte and the cursor moves
        behind it, when no length in it wraps. */
    method ExtendFu(unpacker: Unpacker)
      requires Valid() && unpacker.Valid() && TameSkip(unpacker.Where(), unpacker.pt)
      modifies this, buffer, unpacker
      ensures Valid() && (buffer == old(buffer) || fresh(buffer)) && unpacker.Valid()
      ensures unpacker.pt >= old(unpacker.pt)
      ensures Contents() == old(Contents()) + unpacker.data[old(unpacker.pt)..unpacker.pt]
      ensures unpacker.pt - old(unpacker.pt) == Skip(old(unpacker.Rest())).1
    {
      var start := unpacker.pt;
      var _ := unpacker.SkipNext();
      var size := unpacker.pt - start;
      Resize(size);
      Copy(unpacker.data[start..start + size]);
    }
  }

  lemma Enough(n: nat, a: nat)
    requires a > 0
    ensures n < (n / a + 1) * a
  {
    assert n == a * (n / a) + n % a;
    assert (n / a + 1) * a == a * (n / a) + a;
  }
}
