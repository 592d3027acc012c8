/** qp_skip_next as a run of calls of qp_next, and when such a run is the one that is meant. */
module QpackRun {
  import opened Common
  import opened QpackTokens
  import opened QpackValues
  import opened QpackSkip
  import opened QpackWrap

  /** Where a nested call of qp_skip_next was made: in the loop of a counted array or map of type tp
      with so many items left, or in one of the calls of the loops up to a closing mark. */
  datatype Caller = Counted(tp: int, left: nat) | InArray | AtKey | AtValue

  /** The next call of qp_next is made at the cursor pt.  Lost: the cursor has left the bytes. */
  datatype State = Skipping(pt: int, callers: seq<Caller>) | Ended(tp: int, pt: int) | Lost

  /** A call of qp_skip_next returns tp. */
  function Return(tp: int, pt: int, callers: seq<Caller>): State
    decreases |callers|
  {
    if callers == [] then Ended(tp, pt)
    else
      var rest, last := callers[..|callers| - 1], callers[|callers| - 1];
      match last
      case Counted(c, left) => if left == 0 then Return(c, pt, rest) else Skipping(pt, rest + [Counted(c, left - 1)])
      case InArray => if tp == QP_END || tp == QP_ARRAY_CLOSE then Return(QP_ARRAY_OPEN, pt, rest) else Skipping(pt, callers)
      case AtKey =>
        if tp == QP_END || tp == QP_MAP_CLOSE then Return(QP_MAP_OPEN, pt, rest) else Skipping(pt, rest + [AtValue])
      case AtValue => Skipping(pt, rest + [AtKey])
  }

  /** The switch of qp_skip_next. */
  function After(tp: int, pt: int, callers: seq<Caller>): State {
    if QP_ARRAY0 <= tp < QP_MAP0 then Many(tp, tp - QP_ARRAY0, pt, callers)
    else if QP_MAP0 <= tp < QP_TRUE then Many(tp, 2 * (tp - QP_MAP0), pt, callers)
    else if tp == QP_ARRAY_OPEN then Skipping(pt, callers + [InArray])
    else if tp == QP_MAP_OPEN then Skipping(pt, callers + [AtKey])
    else Return(tp, pt, callers)
  }

  function Many(tp: int, count: nat, pt: int, callers: seq<Caller>): State {
    if count == 0 then Return(tp, pt, callers) else Skipping(pt, callers + [Counted(tp, count - 1)])
  }

  /** One call of qp_next, by the code or as it is meant, and what follows up to the next call. */
  function Step(m: Memory, code: bool, st: State): State
    requires Placed(m)
  {
    if !st.Skipping? then st
    else if !(0 <= st.pt <= |m.data|) then Lost
    else if code then
      var (t, p) := CodeNext(m, st.pt);
      After(TypeOf(t), p, st.callers)
    else
      var (t, n) := Next(m.data[st.pt..]);
      After(TypeOf(t), st.pt + n, st.callers)
  }

  function Run(m: Memory, code: bool, st: State, n: nat): State
    requires Placed(m)
    decreases n
  {
    if n == 0 then st else Run(m, code, Step(m, code, st), n - 1)
  }

  /** The first n calls do what they are meant to do. */
  predicate Agree(m: Memory, st: State, n: nat)
    requires Placed(m)
    decreases n
  {
    n == 0 || (Step(m, true, st) == Step(m, false, st) && Agree(m, Step(m, false, st), n - 1))
  }

  lemma {:induction false} RunOn(m: Memory, code: bool, st: State, a: nat, b: nat)
    requires Placed(m)
    ensures Run(m, code, st, a + b) == Run(m, code, Run(m, code, st, a), b)
    decreases a
  {
    hide Step;
    if a > 0 {
      RunOn(m, code, Step(m, code, st), a - 1, b);
    }
  }

  lemma {:induction false} AgreeOn(m: Memory, st: State, a: nat, b: nat)
    requires Placed(m)
    ensures Agree(m, st, a + b) <==> Agree(m, st, a) && Agree(m, Run(m, false, st, a), b)
    decreases a
  {
    hide Step;
    if a > 0 {
      AgreeOn(m, Step(m, false, st), a - 1, b);
    }
  }

  /** As long as the calls agree, the code is where it is meant to be. */
  lemma {:induction false} AgreeRuns(m: Memory, st: State, n: nat)
    requires Placed(m) && Agree(m, st, n)
    ensures Run(m, true, st, n) == Run(m, false, st, n)
    decreases n
  {
    hide Step;
    if n > 0 {
      AgreeRuns(m, Step(m, false, st), n - 1);
    }
  }

  lemma {:induction false} EndedStays(m: Memory, st: State, n: nat)
    requires Placed(m) && st.Ended?
    ensures Agree(m, st, n)
  {
    if n > 0 {
      EndedStays(m, st, n - 1);
    }
  }

  // ---- one call ----

  function Cursor(st: State): int {
    if st.Lost? then -1 else st.pt
  }

  lemma {:induction false} ReturnCursor(tp: int, pt: int, callers: seq<Caller>)
    ensures !Return(tp, pt, callers).Lost? && Cursor(Return(tp, pt, callers)) == pt
    decreases |callers|
  {
    if callers != [] {
      var rest, last := callers[..|callers| - 1], callers[|callers| - 1];
      ReturnCursor(if last.Counted? then last.tp else if last.InArray? then QP_ARRAY_OPEN else QP_MAP_OPEN, pt, rest);
    }
  }

  lemma AfterCursor(tp: int, pt: int, callers: seq<Caller>)
    ensures Cursor(After(tp, pt, callers)) == pt
  {
    hide Return;
    ReturnCursor(tp, pt, callers);
  }

  lemma StepExact(m: Memory, pt: nat, callers: seq<Caller>)
    requires Placed(m) && pt <= |m.data|
    ensures Step(m, true, Skipping(pt, callers)) == Step(m, false, Skipping(pt, callers)) <==> !WrapsAt(m, pt)
  {
    hide CodeNext, Next, WrapsAt, After;
    CodeNextExact(m, pt);
    var (t, n) := Next(m.data[pt..]);
    var (u, p) := CodeNext(m, pt);
    AfterCursor(TypeOf(t), pt + n, callers);
    AfterCursor(TypeOf(u), p, callers);
  }

  // ---- skipping one value ----

  /** n calls take a run from one state to another, and they agree exactly when `tame` holds. */
  ghost predicate Takes(m: Memory, st: State, n: nat, end: State, tame: bool)
    requires Placed(m)
  {
    Run(m, false, st, n) == end && (Agree(m, st, n) <==> tame)
  }

  lemma TakesBoth(m: Memory, st: State, a: nat, mid: State, t: bool, b: nat, end: State, u: bool)
    requires Placed(m) && Takes(m, st, a, mid, t) && Takes(m, mid, b, end, u)
    ensures Takes(m, st, a + b, end, t && u)
  {
    hide Run, Agree;
    RunOn(m, false, st, a, b);
    AgreeOn(m, st, a, b);
  }

  lemma TakesOne(m: Memory, pt: nat, callers: seq<Caller>)
    requires Placed(m) && pt <= |m.data|
    ensures var (t, n) := Next(m.data[pt..]);
            Takes(m, Skipping(pt, callers), 1, After(TypeOf(t), pt + n, callers), !WrapsAt(m, pt))
  {
    hide CodeNext, Next, WrapsAt, After;
    StepExact(m, pt, callers);
    var st := Skipping(pt, callers);
    assert Run(m, false, Step(m, false, st), 0) == Step(m, false, st);
    assert Agree(m, Step(m, false, st), 0);
    assert Run(m, false, st, 1) == Step(m, false, st);
  }

  lemma {:induction false} Skips(m: Memory, pt: nat, callers: seq<Caller>) returns (n: nat)
    requires Placed(m) && pt <= |m.data|
    ensures var (tp, k) := Skip(m.data[pt..]);
            Takes(m, Skipping(pt, callers), n, Return(tp, pt + k, callers), TameSkip(m, pt))
    decreases |m.data| - pt, 0
  {
    hide Next, WrapsAt, Return, SkipMany, SkipOpen, TameMany, TameOpen, Takes;
    var (t, l) := Next(m.data[pt..]);
    var tp := TypeOf(t);
    TakesOne(m, pt, callers);
    n := 1;
    var st := Skipping(pt, callers);
    if QP_ARRAY0 <= tp < QP_MAP0 {
      n := SkipsShort(m, pt, callers, tp, tp - QP_ARRAY0, st);
    } else if QP_MAP0 <= tp < QP_TRUE {
      n := SkipsShort(m, pt, callers, tp, 2 * (tp - QP_MAP0), st);
    } else if tp == QP_ARRAY_OPEN {
      n := SkipsOpen(m, pt + l, false, callers);
      TakesBoth(m, st, 1, Skipping(pt + l, callers + [InArray]), !WrapsAt(m, pt), n,
                Return(tp, pt + l + SkipOpen(m.data[pt + l..], false), callers), TameOpen(m, pt + l, false));
      DropTwice(m.data, pt, l);
      n := 1 + n;
    } else if tp == QP_MAP_OPEN {
      n := SkipsOpen(m, pt + l, true, callers);
      TakesBoth(m, st, 1, Skipping(pt + l, callers + [AtKey]), !WrapsAt(m, pt), n,
                Return(tp, pt + l + SkipOpen(m.data[pt + l..], true), callers), TameOpen(m, pt + l, true));
      DropTwice(m.data, pt, l);
      n := 1 + n;
    }
  }

  /** An array or map with its number of items in the type. */
  lemma {:induction false} SkipsShort(m: Memory, pt: nat, callers: seq<Caller>, tp: int, count: nat, st: State)
      returns (n: nat)
    requires Placed(m) && pt <= |m.data| && Next(m.data[pt..]).1 > 0
    requires Takes(m, st, 1, Many(tp, count, pt + Next(m.data[pt..]).1, callers), !WrapsAt(m, pt))
    ensures var l := Next(m.data[pt..]).1;
            Takes(m, st, n, Return(tp, pt + l + SkipMany(m.data[pt..][l..], count), callers),
                  !WrapsAt(m, pt) && TameMany(m, pt + l, count))
    decreases |m.data| - pt, 0, 0
  {
    hide Next, WrapsAt, Return, Takes;
    var l := Next(m.data[pt..]).1;
    DropTwice(m.data, pt, l);
    if count == 0 {
      n := 1;
    } else {
      hide SkipMany, TameMany;
      n := SkipsMany(m, pt + l, count, tp, callers);
      TakesBoth(m, st, 1, Skipping(pt + l, callers + [Counted(tp, count - 1)]), !WrapsAt(m, pt), n,
                Return(tp, pt + l + SkipMany(m.data[pt + l..], count), callers), TameMany(m, pt + l, count));
      n := 1 + n;
    }
  }

  /** The counted loops. */
  lemma {:induction false} SkipsMany(m: Memory, pt: nat, k: nat, tp: int, callers: seq<Caller>) returns (n: nat)
    requires Placed(m) && pt <= |m.data| && k > 0
    ensures Takes(m, Skipping(pt, callers + [Counted(tp, k - 1)]), n,
                  Return(tp, pt + SkipMany(m.data[pt..], k), callers), TameMany(m, pt, k))
    decreases |m.data| - pt, 1, k
  {
    hide Takes, Return, Skip, SkipMany, TameSkip, TameMany, Placed;
    var l := Skip(m.data[pt..]).1;
    var here := callers + [Counted(tp, k - 1)];
    n := Skips(m, pt, here);
    BackInCount(Skip(m.data[pt..]).0, pt + l, callers, tp, k - 1);
    DropTwice(m.data, pt, l);
    OneSkipped(m.data[pt..], k);
    if k == 1 {
      OneTame(m, pt);
    } else {
      TameFirst(m, pt, k);
      var more := SkipsMany(m, pt + l, k - 1, tp, callers);
      TakesBoth(m, Skipping(pt, here), n, Skipping(pt + l, callers + [Counted(tp, k - 2)]), TameSkip(m, pt), more,
                Return(tp, pt + l + SkipMany(m.data[pt + l..], k - 1), callers), TameMany(m, pt + l, k - 1));
      n := n + more;
    }
  }

  lemma BackInCount(tp: int, pt: int, callers: seq<Caller>, c: int, left: nat)
    ensures Return(tp, pt, callers + [Counted(c, left)]) ==
            if left == 0 then Return(c, pt, callers) else Skipping(pt, callers + [Counted(c, left - 1)])
  {
    var here := callers + [Counted(c, left)];
    assert here[..|here| - 1] == callers;
  }

  lemma OneTame(m: Memory, pt: nat)
    requires pt <= |m.data|
    ensures TameMany(m, pt, 1) <==> TameSkip(m, pt)
    ensures TameMany(m, pt, 0)
    ensures SkipMany(m.data[pt..], 1) == Skip(m.data[pt..]).1 && SkipMany(m.data[pt..], 0) == 0
  {
    hide TameSkip, Skip;
  }

  function Opened(isMap: bool): Caller {
    if isMap then AtKey else InArray
  }

  /** The loops up to a closing mark. */
  lemma {:induction false} SkipsOpen(m: Memory, pt: nat, isMap: bool, callers: seq<Caller>) returns (n: nat)
    requires Placed(m) && pt <= |m.data|
    ensures Takes(m, Skipping(pt, callers + [Opened(isMap)]), n,
                  Return(OpenMark(isMap), pt + SkipOpen(m.data[pt..], isMap), callers), TameOpen(m, pt, isMap))
    decreases |m.data| - pt, 2
  {
    hide Takes, Return, Skip, TameSkip, TameMany, SkipMany, SkipOpen, TameOpen, Placed;
    var (tp, l) := Skip(m.data[pt..]);
    var here := callers + [Opened(isMap)];
    n := Skips(m, pt, here);
    SkipMoves(m.data[pt..]);
    BackInLoop(tp, pt + l, callers, isMap);
    if tp == QP_END || tp == CloseMark(isMap) {
      OpenEnds(m, pt, isMap);
    } else {
      OpenParts(m, pt, isMap);
      OpenTame(m, pt, isMap);
      OneTame(m, pt + l);
      var value := SkipMany(m.data[pt + l..], Group(isMap) - 1);
      var tame := TameSkip(m, pt) && TameMany(m, pt + l, Group(isMap) - 1);
      if isMap {
        var one := Skips(m, pt + l, callers + [AtValue]);
        BackFromValue(Skip(m.data[pt + l..]).0, pt + l + value, callers);
        TakesBoth(m, Skipping(pt, here), n, Skipping(pt + l, callers + [AtValue]), TameSkip(m, pt), one,
                  Skipping(pt + l + value, here), TameSkip(m, pt + l));
        n := n + one;
      }
      var more := SkipsOpen(m, pt + l + value, isMap, callers);
      TakesBoth(m, Skipping(pt, here), n, Skipping(pt + l + value, here), tame, more,
                Return(OpenMark(isMap), pt + l + value + SkipOpen(m.data[pt + l + value..], isMap), callers),
                TameOpen(m, pt + l + value, isMap));
      n := n + more;
    }
  }

  lemma BackInLoop(tp: int, pt: int, callers: seq<Caller>, isMap: bool)
    ensures Return(tp, pt, callers + [Opened(isMap)]) ==
            if tp == QP_END || tp == CloseMark(isMap) then Return(OpenMark(isMap), pt, callers)
            else Skipping(pt, callers + [if isMap then AtValue else InArray])
  {
    var here := callers + [Opened(isMap)];
    assert here[..|here| - 1] == callers;
  }

  lemma BackFromValue(tp: int, pt: int, callers: seq<Caller>)
    ensures Return(tp, pt, callers + [AtValue]) == Skipping(pt, callers + [AtKey])
  {
    var here := callers + [AtValue];
    assert here[..|here| - 1] == callers;
  }

  lemma OpenEnds(m: Memory, pt: nat, isMap: bool)
    requires pt <= |m.data|
    requires var tp := Skip(m.data[pt..]).0; tp == QP_END || tp == CloseMark(isMap)
    ensures SkipOpen(m.data[pt..], isMap) == Skip(m.data[pt..]).1
    ensures TameOpen(m, pt, isMap) <==> TameSkip(m, pt)
  {
    hide Skip, SkipMany, TameSkip, TameMany;
  }

  lemma OpenParts(m: Memory, pt: nat, isMap: bool)
    requires pt <= |m.data|
    requires var tp := Skip(m.data[pt..]).0; tp != QP_END && tp != CloseMark(isMap)
    ensures var l := Skip(m.data[pt..]).1;
            var value := SkipMany(m.data[pt + l..], Group(isMap) - 1);
            SkipOpen(m.data[pt..], isMap) == l + value + SkipOpen(m.data[pt + l + value..], isMap)
  {
    hide Skip, SkipMany, SkipOpen, StillOpen;
    var b := m.data[pt..];
    var (tp, l) := Skip(b);
    OpenStep(b, isMap);
    DropTwice(m.data, pt, l);
    OpenItem(tp, m.data[pt + l..], isMap);
    DropTwice(m.data, pt + l, SkipMany(m.data[pt + l..], Group(isMap) - 1));
  }

  lemma OpenTame(m: Memory, pt: nat, isMap: bool)
    requires pt <= |m.data|
    requires var tp := Skip(m.data[pt..]).0; tp != QP_END && tp != CloseMark(isMap)
    ensures var l := Skip(m.data[pt..]).1;
            var value := SkipMany(m.data[pt + l..], Group(isMap) - 1);
            TameOpen(m, pt, isMap) <==>
            TameSkip(m, pt) && TameMany(m, pt + l, Group(isMap) - 1) && TameOpen(m, pt + l + value, isMap)
  {
    hide Skip, SkipMany, TameSkip, TameMany;
  }

  // ---- the main theorem ----

  /** The code makes the calls that are meant, ends, and leaves type and cursor as Skip says. */
  ghost predicate SkipsRight(m: Memory, pt: nat, n: nat)
    requires Placed(m) && pt <= |m.data|
  {
    var (tp, k) := Skip(m.data[pt..]);
    Agree(m, Skipping(pt, []), n) && Run(m, true, Skipping(pt, []), n) == Ended(tp, pt + k)
  }

  /** qp_skip_next works exactly when no length that it reaches wraps. */
  lemma SkipExact(m: Memory, pt: nat)
    requires Placed(m) && pt <= |m.data|
    ensures TameSkip(m, pt) <==> exists n :: SkipsRight(m, pt, n)
  {
    hide Skip, TameSkip, Run, Agree;
    var st := Skipping(pt, []);
    var n := Skips(m, pt, []);
    if TameSkip(m, pt) {
      AgreeRuns(m, st, n);
      assert SkipsRight(m, pt, n);
    }
    forall k | SkipsRight(m, pt, k) ensures TameSkip(m, pt) {
      AgreeRuns(m, st, k);
      if k >= n {
        AgreeOn(m, st, n, k - n);
      } else {
        EndedStays(m, Run(m, false, st, k), n - k);
        AgreeOn(m, st, k, n - k);
      }
    }
  }
}
