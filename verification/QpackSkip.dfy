/** Skipping over qpack values. */
module QpackSkip {
  import opened Common
  import opened QpackTokens
  import opened QpackValues

  // ---- skipping ----

  /** What qp_skip_next returns on the bytes at the cursor, and by how much it moves the cursor.
      It is defined for all bytes. */
  function Skip(b: Bytes): (r: (int, nat))
    ensures r.1 <= |b| && (r.1 == 0 <==> b == []) && r.0 == TypeOf(Next(b).0)
    decreases |b|, 0
  {
    var (t, n) := Next(b);
    var tp := TypeOf(t);
    if QP_ARRAY0 <= tp < QP_MAP0 then (tp, n + SkipMany(b[n..], tp - QP_ARRAY0))
    else if QP_MAP0 <= tp < QP_TRUE then (tp, n + SkipMany(b[n..], 2 * (tp - QP_MAP0)))
    else if tp == QP_ARRAY_OPEN then (tp, n + SkipOpen(b[n..], false))
    else if tp == QP_MAP_OPEN then (tp, n + SkipOpen(b[n..], true))
    else (tp, n)
  }

  function SkipMany(b: Bytes, k: nat): (n: nat)
    ensures n <= |b|
    decreases |b|, 1, k
  {
    if k == 0 then 0
    else
      var n := Skip(b).1;
      n + SkipMany(b[n..], k - 1)
  }

  function SkipOpen(b: Bytes, isMap: bool): (n: nat)
    ensures n <= |b|
    decreases |b|, 2
  {
    var (tp, n) := Skip(b);
    if tp == QP_END || tp == CloseMark(isMap) then n
    else
      var m := SkipMany(b[n..], Group(isMap) - 1);
      n + m + SkipOpen(b[n + m..], isMap)
  }

  /** The items of an array or a map, behind the mark tp; nothing for any other type. */
  function SkipInside(tp: int, b: Bytes): (n: nat)
    ensures n <= |b|
  {
    if QP_ARRAY0 <= tp < QP_MAP0 then SkipMany(b, tp - QP_ARRAY0)
    else if QP_MAP0 <= tp < QP_TRUE then SkipMany(b, 2 * (tp - QP_MAP0))
    else if tp == QP_ARRAY_OPEN then SkipOpen(b, false)
    else if tp == QP_MAP_OPEN then SkipOpen(b, true)
    else 0
  }

  lemma SkipOf(b: Bytes)
    ensures var (t, n) := Next(b);
            Skip(b) == (TypeOf(t), n + SkipInside(TypeOf(t), b[n..]))
  {
    hide Next, SkipMany, SkipOpen;
  }

  /** Wherever there is a value to read, skipping moves exactly behind it. */
  lemma {:induction false} SkipRead(b: Bytes)
    requires Read(b).Some?
    ensures Skip(b).1 == Read(b).value.1
    ensures Skip(b).0 != QP_END && Skip(b).0 != QP_ARRAY_CLOSE && Skip(b).0 != QP_MAP_CLOSE
    decreases |b|, 0
  {
    hide Next, ReadMany, ReadOpen, SkipMany, SkipOpen;
    var (t, n) := Next(b);
    var tp := TypeOf(t);
    if QP_ARRAY0 <= tp < QP_MAP0 {
      SkipReadMany(b[n..], tp - QP_ARRAY0);
    } else if QP_MAP0 <= tp < QP_TRUE {
      SkipReadMany(b[n..], 2 * (tp - QP_MAP0));
    } else if tp == QP_ARRAY_OPEN {
      SkipReadOpen(b[n..], false);
    } else if tp == QP_MAP_OPEN {
      SkipReadOpen(b[n..], true);
    }
  }

  lemma {:induction false} SkipReadMany(b: Bytes, k: nat)
    requires ReadMany(b, k).Some?
    ensures SkipMany(b, k) == ReadMany(b, k).value.1
    decreases |b|, 1, k
  {
    if k > 0 {
      SkipRead(b);
      SkipReadMany(b[Skip(b).1..], k - 1);
    }
  }

  lemma {:induction false} SkipReadOpen(b: Bytes, isMap: bool)
    requires ReadOpen(b, isMap).Some?
    ensures SkipOpen(b, isMap) == ReadOpen(b, isMap).value.1
    decreases |b|, 2
  {
    hide Next, Read, Skip, SkipMany, SkipOpen, ReadMany, ReadOpen;
    if b != [] && b[0] == CloseMark(isMap) {
      SkipClose(b, isMap);
    } else {
      ReadOpenMore(b, isMap);
      ReadManyFirst(b, Group(isMap));
      SkipReadMany(b, Group(isMap));
      SkipRead(b);
      SkipOpenMore(b, isMap);
      SkipReadOpen(b[ReadMany(b, Group(isMap)).value.1..], isMap);
    }
  }

  lemma ReadOpenMore(b: Bytes, isMap: bool)
    requires ReadOpen(b, isMap).Some? && (b == [] || b[0] != CloseMark(isMap))
    ensures ReadMany(b, Group(isMap)).Some?
    ensures var m := ReadMany(b, Group(isMap)).value.1;
            ReadOpen(b[m..], isMap).Some? && ReadOpen(b, isMap).value.1 == m + ReadOpen(b[m..], isMap).value.1
  {
    hide ReadMany;
  }

  lemma SkipOpenMore(b: Bytes, isMap: bool)
    requires Skip(b).0 != QP_END && Skip(b).0 != CloseMark(isMap)
    ensures var m := SkipMany(b, Group(isMap)); SkipOpen(b, isMap) == m + SkipOpen(b[m..], isMap)
  {
    hide Next, Skip, SkipMany;
    OneSkipped(b, Group(isMap));
  }

  lemma SkipClose(b: Bytes, isMap: bool)
    requires ReadOpen(b, isMap).Some? && b != [] && b[0] == CloseMark(isMap)
    ensures SkipOpen(b, isMap) == 1 && ReadOpen(b, isMap).value.1 == 1
  {}

  lemma ReadManyFirst(b: Bytes, k: nat)
    requires k > 0 && ReadMany(b, k).Some?
    ensures Read(b).Some? && Read(b).value.1 <= ReadMany(b, k).value.1
  {}

  /** Skipping a packed value moves exactly behind it, whatever follows. */
  lemma SkipEncode(v: Value, s: Bytes)
    requires WellFormed(v)
    ensures Skip(Encode(v) + s).1 == |Encode(v)|
  {
    ReadEncode(v, s);
    SkipRead(Encode(v) + s);
  }

  // ---- a value is known by its own bytes ----

  lemma NextPrefix(b: Bytes, c: Bytes)
    requires Next(b).0 != Err && b != [] && b[..Next(b).1] <= c
    ensures Next(c) == Next(b)
  {
    var n := Next(b).1;
    assert c[..n] == b[..n];
    assert forall i :: 0 <= i < n ==> c[i] == b[i] by {
      assert forall i :: 0 <= i < n ==> c[..n][i] == b[..n][i];
    }
    assert forall i, j :: 0 <= i <= j <= n ==> c[i..j] == b[i..j];
  }

  /** What is read does not depend on what follows it. */
  lemma {:induction false} ReadPrefix(b: Bytes, c: Bytes)
    requires Read(b).Some? && b[..Read(b).value.1] <= c
    ensures Read(c) == Read(b)
    decreases |b|, 0
  {
    hide ReadMany, ReadOpen;
    var (t, n) := Next(b);
    var m := Read(b).value.1;
    assert b[..m][..n] == b[..n];
    assert b[..n] <= c;
    NextPrefix(b, c);
    Behind(b, c, n, m);
    if t.Mark? && t.tp < QP_MAP0 {
      ReadManyPrefix(b[n..], c[n..], t.tp - QP_ARRAY0);
    } else if t.Mark? && t.tp < QP_TRUE {
      ReadManyPrefix(b[n..], c[n..], 2 * (t.tp - QP_MAP0));
    } else if t == Mark(QP_ARRAY_OPEN) {
      ReadOpenPrefix(b[n..], c[n..], false);
    } else if t == Mark(QP_MAP_OPEN) {
      ReadOpenPrefix(b[n..], c[n..], true);
    }
  }

  lemma Behind(b: Bytes, c: Bytes, n: nat, m: nat)
    requires n <= m <= |b| && b[..m] <= c
    ensures b[n..][..m - n] <= c[n..] && b[..n] <= c
  {
    assert c == b[..m] + c[m..];
    assert b[n..][..m - n] == b[..m][n..];
    assert c[n..] == b[..m][n..] + c[m..];
    assert c[..n] == b[..n];
  }

  lemma {:induction false} ReadManyPrefix(b: Bytes, c: Bytes, k: nat)
    requires ReadMany(b, k).Some? && b[..ReadMany(b, k).value.1] <= c
    ensures ReadMany(c, k) == ReadMany(b, k)
    decreases |b|, 1, k
  {
    hide Read;
    if k > 0 {
      var n, m := Read(b).value.1, ReadMany(b, k).value.1;
      Behind(b, c, n, m);
      ReadPrefix(b, c);
      ReadManyPrefix(b[n..], c[n..], k - 1);
    }
  }

  lemma {:induction false} ReadOpenPrefix(b: Bytes, c: Bytes, isMap: bool)
    requires ReadOpen(b, isMap).Some? && b[..ReadOpen(b, isMap).value.1] <= c
    ensures ReadOpen(c, isMap) == ReadOpen(b, isMap)
    decreases |b|, 2
  {
    hide ReadMany;
    var m := ReadOpen(b, isMap).value.1;
    SameFirst(b, c, m);
    if b[0] != CloseMark(isMap) {
      var n := ReadMany(b, Group(isMap)).value.1;
      Behind(b, c, n, m);
      ReadManyPrefix(b, c, Group(isMap));
      ReadOpenPrefix(b[n..], c[n..], isMap);
    }
  }

  lemma SameFirst(b: Bytes, c: Bytes, m: nat)
    requires 0 < m <= |b| && b[..m] <= c
    ensures b != [] && c != [] && b[0] == c[0]
  {
    assert b[..m][0] == c[0];
  }

  lemma NoneSkipped(b: Bytes)
    ensures SkipMany(b, 0) == 0
  {}

  lemma DropTwice(b: Bytes, m: nat, n: nat)
    requires m + n <= |b|
    ensures b[m..][n..] == b[m + n..]
  {}

  lemma OneSkipped(b: Bytes, k: nat)
    requires k > 0
    ensures SkipMany(b, k) == Skip(b).1 + SkipMany(b[Skip(b).1..], k - 1)
  {}

  /** What is left of an open array or map behind an item (a key) of type tp. */
  function StillOpen(tp: int, b: Bytes, isMap: bool): nat {
    if tp == QP_END || tp == CloseMark(isMap) then 0
    else
      var m := SkipMany(b, Group(isMap) - 1);
      m + SkipOpen(b[m..], isMap)
  }

  lemma OpenItem(tp: int, b: Bytes, isMap: bool)
    requires tp != QP_END && tp != CloseMark(isMap)
    ensures var m := SkipMany(b, Group(isMap) - 1);
            StillOpen(tp, b, isMap) == m + SkipOpen(b[m..], isMap)
  {}

  lemma OpenDone(tp: int, b: Bytes, isMap: bool)
    requires tp == QP_END || tp == CloseMark(isMap)
    ensures StillOpen(tp, b, isMap) == 0
  {}

  lemma SkipMoves(b: Bytes)
    ensures Skip(b).0 != QP_END ==> Skip(b).1 > 0
  {}

  lemma OpenStep(b: Bytes, isMap: bool)
    ensures var (tp, n) := Skip(b); SkipOpen(b, isMap) == n + StillOpen(tp, b[n..], isMap)
    ensures Skip(b).0 != QP_END ==> Skip(b).1 > 0
  {
    hide Next, Skip, SkipMany, SkipOpen, StillOpen;
    var (tp, n) := Skip(b);
    SkipMoves(b);
    OpenUnfolds(b, isMap);
    if tp == QP_END || tp == CloseMark(isMap) {
      OpenDone(tp, b[n..], isMap);
    } else {
      OpenItem(tp, b[n..], isMap);
      DropTwice(b, n, SkipMany(b[n..], Group(isMap) - 1));
    }
  }

  lemma OpenUnfolds(b: Bytes, isMap: bool)
    ensures var (tp, n) := Skip(b);
            SkipOpen(b, isMap) ==
            if tp == QP_END || tp == CloseMark(isMap) then n
            else
              var m := SkipMany(b[n..], Group(isMap) - 1);
              n + m + SkipOpen(b[n + m..], isMap)
  {
    hide Next, Skip, SkipMany;
  }

  /** The bytes that qp_packer_extend_fu copies from a value are that value again. */
  lemma CopiedValue(b: Bytes, s: Bytes)
    requires Read(b).Some?
    ensures Skip(b).1 == Read(b).value.1
    ensures Read(b[..Skip(b).1] + s) == Read(b)
  {
    SkipRead(b);
    ReadPrefix(b, b[..Skip(b).1] + s);
  }
}
