/** Grouping time-sorted points into windows, and the limit that is built on it. */
module Aggregate {
  import opened Arith
  import opened Common

  datatype Point = Point(ts: nat, val: int)

  const U64: nat := 0x1_0000_0000_0000_0000

  /** Timestamps are int64 values that are not negative. */
  const MAX_TS: nat := 0x8000_0000_0000_0000

  /** Computes the value for a group, or fails. */
  type Aggregator = seq<Point> -> Option<int>

  predicate Sorted(src: seq<Point>) {
    forall i, j :: 0 <= i <= j < |src| ==> src[i].ts <= src[j].ts
  }

  // ---- the time stamp of a window ----

  /** GROUP_TS without the wrap of 64 bits. */
  function WindowEnd(ts: nat, g: nat, offset: nat): nat
    requires g > 0
  {
    (ts + g - 1) / g * g + offset
  }

  /** GROUP_TS */
  function GroupTs(ts: nat, g: nat, offset: nat): nat
    requires g > 0
  {
    ((ts + g - 1) % U64 / g * g + offset) % U64
  }

  lemma Ceil(ts: nat, g: nat)
    requires g > 0
    ensures var c := (ts + g - 1) / g; ts <= c * g <= ts + g - 1
  {
    var c := (ts + g - 1) / g;
    assert ts + g - 1 == c * g + (ts + g - 1) % g;
  }

  /** A window ends at or behind its point exactly when its time stamp fits in 64 bits. */
  lemma GroupTsExact(ts: nat, g: nat, offset: nat)
    requires ts < MAX_TS && offset < g <= MAX_TS
    ensures GroupTs(ts, g, offset) >= ts <==> WindowEnd(ts, g, offset) < U64
    ensures WindowEnd(ts, g, offset) < U64 ==> GroupTs(ts, g, offset) == WindowEnd(ts, g, offset)
  {
    Ceil(ts, g);
    Wrapped(ts + g - 1);
    Wrapped(WindowEnd(ts, g, offset));
  }

  lemma Wrapped(x: nat)
    requires x < 2 * U64
    ensures x % U64 == if x < U64 then x else x - U64
  {}

  /** Windows do not end before earlier ones. */
  lemma WindowEndMonotone(ts: nat, later: nat, g: nat, offset: nat)
    requires ts <= later && g > 0
    ensures WindowEnd(ts, g, offset) <= WindowEnd(later, g, offset)
  {
    var a, b := (ts + g - 1) / g, (later + g - 1) / g;
    assert a <= b by { DivMonotone(ts + g - 1, later + g - 1, g); }
    assert b * g == a * g + (b - a) * g;
    assert (b - a) * g >= 0;
  }

  // ---- runs of points ----

  /** The points first..end make one window with time stamp ts. */
  datatype Run = Run(first: nat, end: nat, ts: nat)

  /** The first index from i on whose point is behind the window. */
  function EndOf(src: seq<Point>, i: nat, ts: nat): (e: nat)
    requires i <= |src|
    ensures i <= e <= |src|
    ensures forall k :: i <= k < e ==> src[k].ts <= ts
    ensures e < |src| ==> src[e].ts > ts
    decreases |src| - i
  {
    if i == |src| || src[i].ts > ts then i else EndOf(src, i + 1, ts)
  }

  function RunAt(src: seq<Point>, g: nat, offset: nat, start: nat): Run
    requires g > 0 && start < |src|
  {
    var ts := GroupTs(src[start].ts, g, offset);
    Run(start, EndOf(src, start + 1, ts), ts)
  }

  function Runs(src: seq<Point>, g: nat, offset: nat, start: nat): (rs: seq<Run>)
    requires g > 0 && start < |src|
    ensures rs != [] && rs[0] == RunAt(src, g, offset, start)
    decreases |src| - start
  {
    var r := RunAt(src, g, offset, start);
    [r] + if r.end == |src| then [] else Runs(src, g, offset, r.end)
  }

  /** The windows lie within 64 bits. */
  predicate NoWrap(src: seq<Point>, g: nat, offset: nat) {
    && src != [] && Sorted(src)
    && offset < g <= MAX_TS
    && src[|src| - 1].ts < MAX_TS && WindowEnd(src[|src| - 1].ts, g, offset) < U64
  }

  /** A group by without an offset always works within 64 bits. */
  lemma GroupByNoWrap(src: seq<Point>, g: nat)
    requires src != [] && Sorted(src) && 0 < g <= MAX_TS && src[|src| - 1].ts < MAX_TS
    ensures NoWrap(src, g, 0)
  {
    Ceil(src[|src| - 1].ts, g);
  }

  lemma WindowOf(src: seq<Point>, g: nat, offset: nat, i: nat)
    requires NoWrap(src, g, offset) && i < |src|
    ensures var w := GroupTs(src[i].ts, g, offset);
            && w == WindowEnd(src[i].ts, g, offset)
            && src[i].ts <= w <= src[i].ts + g - 1 + offset
            && w >= offset && (w - offset) % g == 0 && src[i].ts <= w - offset < src[i].ts + g
  {
    var ts := src[i].ts;
    WindowEndMonotone(ts, src[|src| - 1].ts, g, offset);
    GroupTsExact(ts, g, offset);
    Ceil(ts, g);
    MultipleMod((ts + g - 1) / g, g);
  }

  /** A run is not empty, and its window ends at or behind all of its points: offset behind the first
      multiple of g at or behind its first point. */
  ghost predicate Window(r: Run, src: seq<Point>, g: nat, offset: nat)
    requires g > 0
  {
    && r.first < r.end <= |src|
    && (forall k :: r.first <= k < r.end ==> src[k].ts <= r.ts)
    && r.ts >= offset && (r.ts - offset) % g == 0
    && src[r.first].ts <= r.ts - offset < src[r.first].ts + g
  }

  /** A run starts where the one before it ends, behind its window, and has a window that ends at
      least g later. */
  ghost predicate Follows(r: Run, next: Run, src: seq<Point>, g: nat) {
    && next.first == r.end < |src|
    && src[next.first].ts > r.ts
    && next.ts >= r.ts + g
  }

  /** The runs cover the points from start on without gap or overlap. */
  ghost predicate Windows(rs: seq<Run>, src: seq<Point>, g: nat, offset: nat, start: nat)
    requires g > 0
  {
    && rs != [] && rs[0].first == start && rs[|rs| - 1].end == |src|
    && (forall i :: 0 <= i < |rs| ==> Window(rs[i], src, g, offset))
    && (forall i :: 0 < i < |rs| ==> Follows(rs[i - 1], rs[i], src, g))
  }

  /** The main theorem on the runs. */
  lemma {:induction false} RunsAreWindows(src: seq<Point>, g: nat, offset: nat, start: nat)
    requires NoWrap(src, g, offset) && start < |src|
    ensures Windows(Runs(src, g, offset, start), src, g, offset, start)
    decreases |src| - start
  {
    hide GroupTs, WindowEnd, Sorted, Windows;
    var r := RunAt(src, g, offset, start);
    WindowOf(src, g, offset, start);
    if r.end < |src| {
      RunsAreWindows(src, g, offset, r.end);
      WindowOf(src, g, offset, r.end);
      NextWindow(r.ts, src[r.end].ts, GroupTs(src[r.end].ts, g, offset), g, offset);
      Prepended(r, Runs(src, g, offset, r.end), src, g, offset);
    } else {
      LastRun(r, src, g, offset);
      assert Runs(src, g, offset, start) == [r] + [] == [r];
    }
  }

  lemma LastRun(r: Run, src: seq<Point>, g: nat, offset: nat)
    requires g > 0 && Window(r, src, g, offset) && r.end == |src|
    ensures Windows([r], src, g, offset, r.first)
  {}

  /** A time behind a window belongs to a window that ends at least g later. */
  lemma NextWindow(w: nat, ts: nat, v: nat, g: nat, offset: nat)
    requires g > 0 && w >= offset && v >= offset && (w - offset) % g == 0 && (v - offset) % g == 0
    requires w < ts <= v
    ensures v >= w + g
  {
    var a, b := (w - offset) / g, (v - offset) / g;
    assert w - offset == g * a && v - offset == g * b;
    assert v - w == g * (b - a);
    FarMultiple(g, b - a);
  }

  lemma Prepended(r: Run, rs: seq<Run>, src: seq<Point>, g: nat, offset: nat)
    requires g > 0 && Windows(rs, src, g, offset, r.end)
    requires Window(r, src, g, offset) && Follows(r, rs[0], src, g)
    ensures Windows([r] + rs, src, g, offset, r.first)
  {
    hide Window, Follows;
    var all := [r] + rs;
    assert forall i :: 0 < i < |all| ==> all[i] == rs[i - 1];
  }

  lemma OneMultiple(a: nat, b: nat, ts: nat, g: nat)
    requires g > 0 && a % g == 0 && b % g == 0 && ts <= a < ts + g && ts <= b < ts + g
    ensures a == b
  {
    assert a == g * (a / g) && b == g * (b / g);
    assert a - b == g * (a / g - b / g);
    FarMultiple(g, a / g - b / g);
  }

  /** Nothing is left open: two lists of windows over the same points are the same. */
  lemma {:induction false} OneGrouping(a: seq<Run>, b: seq<Run>, src: seq<Point>, g: nat, offset: nat, start: nat)
    requires g > 0 && start < |src| && Windows(a, src, g, offset, start) && Windows(b, src, g, offset, start)
    ensures a == b
    decreases |src| - start
  {
    assert Window(a[0], src, g, offset) && Window(b[0], src, g, offset);
    OneMultiple(a[0].ts - offset, b[0].ts - offset, src[start].ts, g);
    SameEnd(a, b, src, g, offset, start);
    if |a| == 1 || |b| == 1 {
      Complete(a, src, g, offset, start);
      Complete(b, src, g, offset, start);
    } else {
      BehindFirst(a, src, g, offset, start);
      BehindFirst(b, src, g, offset, start);
      OneGrouping(a[1..], b[1..], src, g, offset, a[0].end);
    }
  }

  /** A list of windows is longer than one exactly when points are left behind the first. */
  lemma Complete(a: seq<Run>, src: seq<Point>, g: nat, offset: nat, start: nat)
    requires g > 0 && Windows(a, src, g, offset, start)
    ensures |a| > 1 <==> a[0].end < |src|
  {
    if |a| > 1 {
      assert Follows(a[0], a[1], src, g);
    }
  }

  lemma SameEnd(a: seq<Run>, b: seq<Run>, src: seq<Point>, g: nat, offset: nat, start: nat)
    requires g > 0 && Windows(a, src, g, offset, start) && Windows(b, src, g, offset, start)
    requires a[0].ts == b[0].ts
    ensures a[0] == b[0]
  {
    Complete(a, src, g, offset, start);
    Complete(b, src, g, offset, start);
    assert Window(a[0], src, g, offset) && Window(b[0], src, g, offset);
    if |a| > 1 {
      assert Follows(a[0], a[1], src, g);
    }
    if |b| > 1 {
      assert Follows(b[0], b[1], src, g);
    }
  }

  lemma BehindFirst(a: seq<Run>, src: seq<Point>, g: nat, offset: nat, start: nat)
    requires g > 0 && Windows(a, src, g, offset, start) && |a| > 1
    ensures Windows(a[1..], src, g, offset, a[0].end) && a[0].end < |src|
  {
    hide Window;
    assert Follows(a[0], a[1], src, g);
    var rest := a[1..];
    assert forall i :: 0 < i < |rest| ==> Follows(a[i], a[i + 1], src, g) && rest[i - 1] == a[i] && rest[i] == a[i + 1];
  }

  // ---- how many runs there are ----

  lemma {:induction false} WindowsApart(rs: seq<Run>, src: seq<Point>, g: nat, offset: nat, start: nat, i: nat)
    requires g > 0 && Windows(rs, src, g, offset, start) && i < |rs|
    ensures rs[i].ts >= rs[0].ts + i * g
    ensures rs[i].first >= start + i
  {
    if i > 0 {
      WindowsApart(rs, src, g, offset, start, i - 1);
      assert Follows(rs[i - 1], rs[i], src, g);
      assert Window(rs[i - 1], src, g, offset);
      assert i * g == (i - 1) * g + g;
    }
  }

  /** The space that is allocated for the windows. */
  function MaxSize(src: seq<Point>, g: nat): nat
    requires src != [] && g > 0 && Sorted(src)
  {
    var span := (src[|src| - 1].ts - src[0].ts) / g + 2;
    if span > |src| then |src| else span
  }

  /** Points of n runs span more than n - 2 windows. */
  lemma RunsSpan(rs: seq<Run>, src: seq<Point>, g: nat, offset: nat)
    requires Sorted(src) && src != [] && g > 0 && Windows(rs, src, g, offset, 0)
    ensures |rs| <= |src|
    ensures |rs| >= 2 ==> src[|src| - 1].ts > rs[0].ts + (|rs| - 2) * g && rs[0].ts >= src[0].ts
  {
    var n := |rs|;
    WindowsApart(rs, src, g, offset, 0, n - 1);
    assert Window(rs[n - 1], src, g, offset) && Window(rs[0], src, g, offset);
    if n >= 2 {
      WindowsApart(rs, src, g, offset, 0, n - 2);
      assert Follows(rs[n - 2], rs[n - 1], src, g);
    }
  }

  /** The windows fit in the space allocated for them. */
  lemma RunsFit(src: seq<Point>, g: nat, offset: nat)
    requires NoWrap(src, g, offset)
    ensures |Runs(src, g, offset, 0)| <= MaxSize(src, g)
  {
    hide Window, Follows, Windows, Runs;
    var rs := Runs(src, g, offset, 0);
    RunsAreWindows(src, g, offset, 0);
    RunsSpan(rs, src, g, offset);
    if |rs| >= 2 {
      AtLeast(src[|src| - 1].ts - src[0].ts, |rs| - 2, g);
    }
  }

  lemma AtLeast(a: nat, n: nat, g: nat)
    requires g > 0 && a >= n * g
    ensures a / g >= n
  {
    MultipleMod(n, g);
    DivMonotone(n * g, a, g);
  }

  // ---- limit ----

  function LimitGroup(src: seq<Point>, limit: nat): (g: nat)
    requires src != [] && Sorted(src) && limit > 0
    ensures g > 0
  {
    (src[|src| - 1].ts - src[0].ts) / limit + 1
  }

  /** AGGREGATE_limit subtracts in 64 bits. */
  function LimitOffset(src: seq<Point>, limit: nat): (offset: nat)
    requires src != [] && Sorted(src) && limit > 0
    ensures offset < LimitGroup(src, limit)
  {
    (src[0].ts + U64 - 1) % U64 % LimitGroup(src, limit)
  }

  /** From the first time stamp on, the first window spans exactly one group. */
  lemma FirstWindow(t: nat, g: nat)
    requires t >= 1 && g > 0
    ensures WindowEnd(t, g, (t - 1) % g) == t + g - 1
  {
    var q, r := (t - 1) / g, (t - 1) % g;
    assert t + g - 1 == g * (q + 1) + r;
    Divided(t + g - 1, g, q + 1, r);
    assert (q + 1) * g == g * q + g;
  }

  /** limit() always works within 64 bits. */
  lemma LimitNoWrap(src: seq<Point>, limit: nat)
    requires src != [] && Sorted(src) && limit > 0 && src[0].ts <= src[|src| - 1].ts < MAX_TS
    ensures NoWrap(src, LimitGroup(src, limit), LimitOffset(src, limit))
    ensures src[0].ts >= 1 ==> LimitOffset(src, limit) == (src[0].ts - 1) % LimitGroup(src, limit)
  {
    hide GroupTs, Sorted;
    var t, last := src[0].ts, src[|src| - 1].ts;
    var g := LimitGroup(src, limit);
    QuotientAtMost(last - t, limit);
    if t >= 1 {
      Unwrapped(t);
      RemainderAtMost(t - 1, g);
      Ceil(last, g);
    } else {
      LastWindowFromZero(last, limit, LimitOffset(src, limit));
    }
  }

  /** From a first time stamp of 0 on, the offset can be anything below the group. */
  lemma LastWindowFromZero(last: nat, limit: nat, offset: nat)
    requires last < MAX_TS && limit > 0 && offset < last / limit + 1
    ensures WindowEnd(last, last / limit + 1, offset) < U64
  {
    var g := last / limit + 1;
    Ceil(last, g);
    if limit == 1 {
      assert g == last + 1;
      var c := (last + g - 1) / g;
      FarMultiple(g, c - 2);
      assert g * (c - 2) == c * g - 2 * g;
      FarMultiple(g, c - 1);
      assert g * (c - 1) == c * g - g;
    } else {
      HalfAtMost(last, limit);
    }
  }

  lemma HalfAtMost(a: nat, n: nat)
    requires n >= 2
    ensures 2 * (a / n) <= a
  {
    assert a == n * (a / n) + a % n;
    FarMultiple(a / n, n - 2);
    assert (a / n) * (n - 2) == n * (a / n) - 2 * (a / n);
  }

  lemma Unwrapped(t: nat)
    requires 1 <= t < MAX_TS
    ensures (t + U64 - 1) % U64 == t - 1
  {}

  lemma RemainderAtMost(a: nat, g: nat)
    requires g > 0
    ensures a % g <= a
  {
    if a < g {
      assert a % g == a;
    }
  }

  lemma QuotientAtMost(a: nat, n: nat)
    requires n > 0
    ensures a / n <= a
  {
    Times(n, a / n);
    assert a == n * (a / n) + a % n;
  }

  lemma Times(n: nat, q: nat)
    requires n > 0
    ensures n * q >= q
  {}

  /** limit takes the shortest group of which n are longer than the source, and, but for a source from
      0 on, an offset with which a window ends just before the first point. */
  ghost predicate LimitWindows(src: seq<Point>, limit: nat, g: nat, offset: nat)
    requires src != [] && g > 0
  {
    && limit * (g - 1) <= src[|src| - 1].ts - src[0].ts < limit * g
    && offset < g
    && ((if src[0].ts > 0 then src[0].ts - 1 else 0xFFFF_FFFF_FFFF_FFFF) - offset) % g == 0
  }

  lemma LimitChoice(src: seq<Point>, limit: nat)
    requires src != [] && Sorted(src) && limit > 0 && src[0].ts <= src[|src| - 1].ts < MAX_TS
    ensures LimitWindows(src, limit, LimitGroup(src, limit), LimitOffset(src, limit))
  {
    var t := src[0].ts;
    Shortest(src[|src| - 1].ts - t, limit);
    if t > 0 {
      Unwrapped(t);
    }
    WithoutRemainder(if t > 0 then t - 1 else U64 - 1, LimitGroup(src, limit));
  }

  lemma Shortest(span: nat, limit: nat)
    requires limit > 0
    ensures limit * (span / limit) <= span < limit * (span / limit + 1)
  {
    assert span == limit * (span / limit) + span % limit;
  }

  lemma WithoutRemainder(a: nat, g: nat)
    requires g > 0
    ensures a % g <= a && (a - a % g) % g == 0
  {
    var q := a / g;
    assert a == g * q + a % g;
    MultipleMod(q, g);
    assert a - a % g == q * g;
  }

  /** limit(n) keeps its promise, never more than n windows, for a first time stamp from 1 on; from
      0 on there is at most one window more. */
  lemma {:induction false} LimitKept(src: seq<Point>, limit: nat)
    requires src != [] && Sorted(src) && limit > 0 && src[|src| - 1].ts < MAX_TS
    ensures |Runs(src, LimitGroup(src, limit), LimitOffset(src, limit), 0)| <= limit + if src[0].ts == 0 then 1 else 0
  {
    hide Window, Follows, Windows, Runs, LimitOffset, NoWrap, Sorted, WindowEnd, GroupTs;
    var g, o := LimitGroup(src, limit), LimitOffset(src, limit);
    LastIsLatest(src);
    LimitNoWrap(src, limit);
    var rs := Runs(src, g, o, 0);
    RunsAreWindows(src, g, o, 0);
    RunsSpan(rs, src, g, o);
    WindowOf(src, g, o, 0);
    var t, span, n := src[0].ts, src[|src| - 1].ts - src[0].ts, |rs|;
    if t > 0 {
      FirstWindow(t, g);
    }
    if t > 0 && n >= 2 {
      TooManyWindows(span, limit, n);
    } else if n >= 3 {
      OneGroupLess(n, g);
      TooManyWindows(span, limit, n - 1);
    }
  }

  lemma OneGroupLess(n: nat, g: nat)
    requires n >= 3
    ensures (n - 2) * g == g + (n - 3) * g
  {}

  lemma TooManyWindows(span: nat, limit: nat, n: nat)
    requires limit > 0 && n >= 2
    requires span >= (span / limit + 1) + (n - 2) * (span / limit + 1)
    ensures n <= limit
  {
    var g := span / limit + 1;
    assert span < limit * g by {
      assert span == limit * (span / limit) + span % limit;
      assert limit * g == limit * (span / limit) + limit;
    }
    assert g + (n - 2) * g == (n - 1) * g;
    assert g * (limit - (n - 1)) == limit * g - (n - 1) * g;
    FarMultiple(g, limit - (n - 1));
  }

  /** With a first time stamp of 0 the offset wraps and the promise fails. */
  lemma LimitFromZero()
    ensures var src := [Point(0, 0), Point(2, 0)];
            Sorted(src) && |Runs(src, LimitGroup(src, 1), LimitOffset(src, 1), 0)| == 2
  {
    var src := [Point(0, 0), Point(2, 0)];
    assert LimitGroup(src, 1) == 3;
    assert LimitOffset(src, 1) == (U64 - 1) % 3 == 0;
    assert GroupTs(0, 3, 0) == 0;
    assert EndOf(src, 1, 0) == 1;
    var rest := RunAt(src, 3, 0, 1);
    assert GroupTs(2, 3, 0) == 3;
    assert rest.end == 2;
    assert Runs(src, 3, 0, 1) == [rest] + [];
  }

  predicate LimitHolds(src: seq<Point>, limit: nat) {
    && src != [] && Sorted(src) && limit > 0
    && |Runs(src, LimitGroup(src, limit), LimitOffset(src, limit), 0)| <= limit
  }

  /** limit() can be trusted for all data from a first time stamp on exactly when that is not 0. */
  lemma LimitTrusted(first: nat)
    requires first < MAX_TS
    ensures first >= 1 <==>
            forall src: seq<Point>, limit: nat ::
              src != [] && Sorted(src) && limit > 0 && src[0].ts == first && src[|src| - 1].ts < MAX_TS
              ==> LimitHolds(src, limit)
  {
    hide Sorted, Runs, LimitGroup, LimitOffset;
    if first >= 1 {
      forall src: seq<Point>, limit: nat | src != [] && Sorted(src) && limit > 0 && src[0].ts == first && src[|src| - 1].ts < MAX_TS
        ensures LimitHolds(src, limit)
      {
        LastIsLatest(src);
        LimitKept(src, limit);
      }
    } else {
      LimitFromZero();
      var src := [Point(0, 0), Point(2, 0)];
      assert !LimitHolds(src, 1);
    }
  }

  lemma LastIsLatest(src: seq<Point>)
    requires src != [] && Sorted(src)
    ensures src[0].ts <= src[|src| - 1].ts
  {}

  // ---- the program ----

  /** The value of every run, or None when one of them has none. */
  predicate AllValued(src: seq<Point>, rs: seq<Run>, f: Aggregator) {
    forall i :: 0 <= i < |rs| ==> rs[i].first <= rs[i].end <= |src| && f(src[rs[i].first..rs[i].end]).Some?
  }

  function Output(src: seq<Point>, rs: seq<Run>, f: Aggregator): (out: seq<Point>)
    requires AllValued(src, rs, f)
    ensures |out| == |rs|
  {
    seq(|rs|, i requires 0 <= i < |rs| => Point(rs[i].ts, f(src[rs[i].first..rs[i].end]).value))
  }

  /** One point for each run, with the time of its window and the value of its points. */
  ghost predicate Answers(points: seq<Point>, rs: seq<Run>, src: seq<Point>, f: Aggregator) {
    && |points| == |rs|
    && forall i :: 0 <= i < |rs| ==>
         && rs[i].first <= rs[i].end <= |src| && points[i].ts == rs[i].ts
         && f(src[rs[i].first..rs[i].end]) == Some(points[i].val)
  }

  /** f has no value for the points of some run. */
  ghost predicate Fails(rs: seq<Run>, src: seq<Point>, f: Aggregator) {
    exists i :: 0 <= i < |rs| && rs[i].first <= rs[i].end <= |src| && f(src[rs[i].first..rs[i].end]) == None
  }

  /** The outcome of a group by: the points that the windows over the source answer, or a failure. */
  ghost predicate Grouped(ok: bool, points: seq<Point>, src: seq<Point>, g: nat, offset: nat, f: Aggregator)
    requires g > 0
  {
    exists rs :: Windows(rs, src, g, offset, 0) && if ok then Answers(points, rs, src, f) else Fails(rs, src, f)
  }

  class Aggr {
    var groupBy: nat
    var offset: nat
    const limit: nat
    const f: Aggregator

    constructor (groupBy: nat, offset: nat, limit: nat, f: Aggregator)
      ensures this.groupBy == groupBy && this.offset == offset && this.limit == limit && this.f == f
    {
      this.groupBy, this.offset, this.limit, this.f := groupBy, offset, limit, f;
    }

    /** AGGREGATE_group_by: one point for each run, or nothing when a value cannot be computed. */
    method GroupBy(src: seq<Point>) returns (ok: bool, points: array<Point>, len: nat)
      requires groupBy > 0 && NoWrap(src, groupBy, offset)
      ensures len <= points.Length == MaxSize(src, groupBy)
      ensures Grouped(ok, points[..len], src, groupBy, offset, f)
      ensures ok <==> AllValued(src, Runs(src, groupBy, offset, 0), f)
      ensures ok ==> points[..len] == Output(src, Runs(src, groupBy, offset, 0), f)
    {
      hide Sorted, Windows, Window, Follows, GroupTs, WindowEnd, MaxSize, Runs, RunAt, AllValued, Output;
      ghost var g, o := groupBy, offset;
      ghost var rs := Runs(src, g, o, 0);
      ghost var done: seq<Run> := [];
      points := new Point[MaxSize(src, groupBy)](_ => Point(0, 0));
      ok, len := true, 0;
      RunsFit(src, g, o);
      NoOutput(src, f);
      var start, end := 0, 0;
      var ts := GroupTs(src[0].ts, groupBy, offset);
      WindowOf(src, g, o, 0);
      RunStarts(src, g, o, 0);
      while end < |src|
        invariant start <= end <= |src| && start < |src| && len == |done| && points.Length == MaxSize(src, g)
        invariant ts == GroupTs(src[start].ts, g, o)
        invariant start < end || (start == end == 0 && src[0].ts <= ts)
        invariant RunAt(src, g, o, start).end >= end
        invariant rs == done + Runs(src, g, o, start)
        invariant AllValued(src, done, f) && points[..len] == Output(src, done, f)
      {
        if src[end].ts > ts {
          Advance(rs, done, src, g, o, start, end, ts);
          ok := Emit(src, start, end, ts, points, len, done, rs);
          if !ok {
            GroupingOf(ok, points[..len], src, g, o, f);
            return;
          }
          done, len := done + [Run(start, end, ts)], len + 1;
          start := end;
          ts := GroupTs(src[end].ts, groupBy, offset);
          WindowOf(src, g, o, start);
          RunStarts(src, g, o, start);
        }
        RunGoesOn(src, g, o, start, end, ts);
        end := end + 1;
      }
      Advance(rs, done, src, g, o, start, end, ts);
      ok := Emit(src, start, end, ts, points, len, done, rs);
      len := if ok then len + 1 else len;
      GroupingOf(ok, points[..len], src, g, o, f);
    }

    /** The callback for the points start..end, and its value as the next point. */
    method Emit(src: seq<Point>, start: nat, end: nat, ts: nat, points: array<Point>, len: nat,
                ghost done: seq<Run>, ghost rs: seq<Run>)
        returns (ok: bool)
      requires start <= end <= |src| && len == |done| < |rs| <= points.Length
      requires done + [Run(start, end, ts)] <= rs
      requires AllValued(src, done, f) && points[..len] == Output(src, done, f)
      modifies points
      ensures var now := done + [Run(start, end, ts)];
              if ok then AllValued(src, now, f) && points[..len + 1] == Output(src, now, f)
              else !AllValued(src, rs, f)
    {
      var v := f(src[start..end]);
      if v.None? {
        assert rs[|done|] == (done + [Run(start, end, ts)])[|done|];
        return false;
      }
      points[len] := Point(ts, v.value);
      return true;
    }

    /** AGGREGATE_limit: at most `limit` points come back, or one more when the first time stamp is 0. */
    method Limit(src: seq<Point>) returns (ok: bool, points: seq<Point>)
      requires src != [] && Sorted(src) && limit > 0 && src[0].ts <= src[|src| - 1].ts < MAX_TS
      modifies this
      ensures ok ==> |points| <= limit + if src[0].ts == 0 then 1 else 0
      ensures |src| <= limit ==> ok && points == src
      ensures |src| > limit ==>
                && groupBy == LimitGroup(src, limit) && offset == LimitOffset(src, limit)
                && LimitWindows(src, limit, groupBy, offset) && Grouped(ok, points, src, groupBy, offset, f)
                && (ok <==> AllValued(src, Runs(src, groupBy, offset, 0), f))
                && (ok ==> points == Output(src, Runs(src, groupBy, offset, 0), f))
    {
      hide Runs, AllValued, Output;
      if |src| <= limit {
        return true, src;
      }
      var timespan := src[|src| - 1].ts - src[0].ts;
      groupBy := timespan / limit + 1;
      offset := (src[0].ts + U64 - 1) % U64 % groupBy;
      LimitNoWrap(src, limit);
      LimitKept(src, limit);
      LimitChoice(src, limit);
      var data, len;
      ok, data, len := GroupBy(src);
      points := data[..len];
    }
  }

  lemma GroupingOf(ok: bool, points: seq<Point>, src: seq<Point>, g: nat, offset: nat, f: Aggregator)
    requires NoWrap(src, g, offset) && (ok <==> AllValued(src, Runs(src, g, offset, 0), f))
    requires ok ==> points == Output(src, Runs(src, g, offset, 0), f)
    ensures Grouped(ok, points, src, g, offset, f)
  {
    hide Runs, WindowEnd, Sorted, Follows;
    RunsAreWindows(src, g, offset, 0);
    var rs := Runs(src, g, offset, 0);
    assert forall i :: 0 <= i < |rs| ==> Window(rs[i], src, g, offset);
  }

  lemma NoOutput(src: seq<Point>, f: Aggregator)
    ensures AllValued(src, [], f) && Output(src, [], f) == []
  {}

  lemma RunStarts(src: seq<Point>, g: nat, offset: nat, start: nat)
    requires g > 0 && start < |src|
    ensures RunAt(src, g, offset, start).end > start
  {}

  /** A point that is not behind the window belongs to the run. */
  lemma RunGoesOn(src: seq<Point>, g: nat, offset: nat, start: nat, end: nat, ts: nat)
    requires g > 0 && start <= end < |src| && ts == GroupTs(src[start].ts, g, offset) && src[end].ts <= ts
    requires RunAt(src, g, offset, start).end >= end
    ensures RunAt(src, g, offset, start).end > end
  {
    hide GroupTs;
  }

  /** The loop of AGGREGATE_group_by has found the run that starts at `start`. */
  lemma Advance(rs: seq<Run>, done: seq<Run>, src: seq<Point>, g: nat, offset: nat, start: nat, end: nat, ts: nat)
    requires g > 0 && start < |src| && ts == GroupTs(src[start].ts, g, offset)
    requires rs == done + Runs(src, g, offset, start)
    requires start < end <= |src| && RunAt(src, g, offset, start).end >= end
    requires end < |src| ==> src[end].ts > ts
    ensures RunAt(src, g, offset, start) == Run(start, end, ts) && |rs| > |done|
    ensures done + [Run(start, end, ts)] <= rs
    ensures if end == |src| then rs == done + [Run(start, end, ts)]
            else rs == done + [Run(start, end, ts)] + Runs(src, g, offset, end)
  {
    hide GroupTs, EndOf, Runs, RunAt;
    RunIs(src, g, offset, start, end, ts);
    RunStep(src, g, offset, start);
    Associate(done, RunAt(src, g, offset, start), if end == |src| then [] else Runs(src, g, offset, end));
  }

  lemma RunIs(src: seq<Point>, g: nat, offset: nat, start: nat, end: nat, ts: nat)
    requires g > 0 && start < |src| && ts == GroupTs(src[start].ts, g, offset)
    requires start < end <= |src| && RunAt(src, g, offset, start).end >= end
    requires end < |src| ==> src[end].ts > ts
    ensures RunAt(src, g, offset, start) == Run(start, end, ts)
  {
    hide GroupTs;
  }

  lemma RunStep(src: seq<Point>, g: nat, offset: nat, start: nat)
    requires g > 0 && start < |src|
    ensures var r := RunAt(src, g, offset, start);
            Runs(src, g, offset, start) == [r] + if r.end == |src| then [] else Runs(src, g, offset, r.end)
  {
    hide GroupTs, EndOf;
  }

  lemma Associate(done: seq<Run>, r: Run, rest: seq<Run>)
    ensures done + ([r] + rest) == done + [r] + rest && done + [r] <= done + ([r] + rest)
    ensures rest == [] ==> done + ([r] + rest) == done + [r]
  {}
}
