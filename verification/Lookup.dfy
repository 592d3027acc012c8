/** The table that assigns series to pools. */
module Lookup {
  import opened Arith
  import opened Common

  const LOOKUP_SZ: nat := 8192

  type Table = seq<nat>

  // ---- how the table grows ----

  /** How many of the first m slots belong to pool j. */
  function Slots(t: Table, j: nat, m: nat): (c: nat)
    requires m <= |t|
    ensures c <= m
  {
    if m == 0 then 0 else Slots(t, j, m - 1) + if t[m - 1] == j then 1 else 0
  }

  /** Whether pool n takes over slot i: of the slots of pool j it takes those whose number,
      counted from j + 1, is a multiple of n + 1. */
  predicate Taken(t: Table, n: nat, i: nat)
    requires i < |t|
  {
    (t[i] + Slots(t, t[i], i + 1)) % (n + 1) == 0
  }

  function Step(t: Table, n: nat): (r: Table)
    ensures |r| == |t|
  {
    seq(|t|, i requires 0 <= i < |t| => if Taken(t, n, i) then n else t[i])
  }

  /** The table for p pools. */
  function Build(p: nat): (t: Table)
    ensures |t| == LOOKUP_SZ
  {
    if p <= 1 then seq(LOOKUP_SZ, _ => 0) else Step(Build(p - 1), p - 1)
  }

  predicate Within(t: Table, p: nat) {
    forall i :: 0 <= i < |t| ==> t[i] < p
  }

  lemma {:induction false} BuildWithin(p: nat)
    requires p >= 1
    ensures Within(Build(p), p)
  {
    if p > 1 {
      BuildWithin(p - 1);
    }
  }

  /** siridb_lookup_new */
  method New(numPools: nat) returns (lookup: array<nat>)
    requires numPools >= 1
    ensures fresh(lookup) && lookup[..] == Build(numPools)
  {
    lookup := new nat[LOOKUP_SZ](_ => 0);
    var counters := new nat[numPools - 1];
    assert lookup[..] == Build(1);
    var n, m := 1, 2;
    while n < numPools
      invariant 1 <= n <= numPools && m == n + 1
      invariant lookup[..] == Build(n)
    {
      BuildWithin(n);
      Extend(lookup, counters, n, m);
      n, m := n + 1, m + 1;
    }
  }

  /** One round: pool n takes every m-th slot of each pool. */
  method Extend(lookup: array<nat>, counters: array<nat>, n: nat, m: nat)
    requires lookup != counters && n <= counters.Length && m == n + 1
    requires Within(lookup[..], n)
    modifies lookup, counters
    ensures lookup[..] == Step(old(lookup[..]), n)
  {
    ghost var t := lookup[..];
    for i := 0 to n
      invariant forall j :: 0 <= j < i ==> counters[j] == j
      invariant lookup[..] == t
    {
      counters[i] := i;
    }
    for i := 0 to lookup.Length
      invariant forall j :: 0 <= j < n ==> counters[j] == j + Slots(t, j, i)
      invariant forall k :: 0 <= k < i ==> lookup[k] == Step(t, n)[k]
      invariant forall k :: i <= k < lookup.Length ==> lookup[k] == t[k]
    {
      var j := lookup[i];
      counters[j] := counters[j] + 1;
      if counters[j] % m == 0 {
        lookup[i] := n;
      }
    }
  }

  // ---- balance ----

  /** What is left to pool j after a round. */
  lemma {:induction false} SlotsLeft(t: Table, n: nat, j: nat, m: nat)
    requires m <= |t| && j < n
    ensures Slots(Step(t, n), j, m) == Slots(t, j, m) - (Slots(t, j, m) + j) / (n + 1)
  {
    if m > 0 {
      SlotsLeft(t, n, j, m - 1);
      NextMultiple(Slots(t, j, m - 1) + j, n + 1);
    } else {
      SmallDivision(j, n + 1);
    }
  }

  lemma SmallDivision(a: nat, b: nat)
    requires a < b
    ensures a / b == 0
  {}

  lemma NextMultiple(a: nat, b: nat)
    requires b > 0
    ensures (a + 1) / b == a / b + if (a + 1) % b == 0 then 1 else 0
  {
    var q, r := a / b, a % b;
    assert a == b * q + r;
    if r + 1 == b {
      Divided(a + 1, b, q + 1, 0);
    } else {
      Divided(a + 1, b, q, r + 1);
    }
  }

  /** How far pool j is from its share: p * slots - LOOKUP_SZ. */
  function Excess(t: Table, p: nat, j: nat): int {
    p * Slots(t, j, |t|) - |t|
  }

  /** Adding pool n changes the excess of pool j by ((c + j) mod (n + 1)) - j. */
  lemma ExcessStep(t: Table, n: nat, j: nat)
    requires j < n
    ensures Excess(Step(t, n), n + 1, j) == Excess(t, n, j) + (Slots(t, j, |t|) + j) % (n + 1) - j
  {
    hide Slots, Step;
    SlotsLeft(t, n, j, |t|);
    Remainder(n, Slots(t, j, |t|), j);
  }

  lemma Remainder(n: nat, c: nat, j: nat)
    ensures (n + 1) * (c - (c + j) / (n + 1)) == n * c + (c + j) % (n + 1) - j
  {
    var q := (c + j) / (n + 1);
    assert c + j == (n + 1) * q + (c + j) % (n + 1);
    Distribute(n + 1, c, q);
    assert (n + 1) * c == n * c + c;
  }

  lemma Distribute(a: int, b: int, c: int)
    ensures a * (b - c) == a * b - a * c
  {}

  // ---- the pools share the table ----

  function SlotsOfFirst(t: Table, p: nat, m: nat): nat
    requires m <= |t|
  {
    if p == 0 then 0 else SlotsOfFirst(t, p - 1, m) + Slots(t, p - 1, m)
  }

  lemma {:induction false} SlotsOfFirstNext(t: Table, p: nat, m: nat)
    requires m < |t|
    ensures SlotsOfFirst(t, p, m + 1) == SlotsOfFirst(t, p, m) + if t[m] < p then 1 else 0
  {
    if p > 0 {
      SlotsOfFirstNext(t, p - 1, m);
    }
  }

  lemma {:induction false} NoSlots(t: Table, p: nat)
    ensures SlotsOfFirst(t, p, 0) == 0
  {
    if p > 0 {
      NoSlots(t, p - 1);
    }
  }

  /** Every slot belongs to exactly one pool. */
  lemma {:induction false} SlotsShareTable(t: Table, p: nat, m: nat)
    requires Within(t, p) && m <= |t|
    ensures SlotsOfFirst(t, p, m) == m
  {
    if m == 0 {
      NoSlots(t, p);
    } else {
      SlotsShareTable(t, p, m - 1);
      SlotsOfFirstNext(t, p, m - 1);
    }
  }

  function ExcessOfFirst(t: Table, p: nat, k: nat): int {
    if k == 0 then 0 else ExcessOfFirst(t, p, k - 1) + Excess(t, p, k - 1)
  }

  lemma {:induction false} ExcessIsSlots(t: Table, p: nat, k: nat)
    ensures ExcessOfFirst(t, p, k) == p * SlotsOfFirst(t, k, |t|) - k * |t|
  {
    if k > 0 {
      ExcessIsSlots(t, p, k - 1);
      assert p * (SlotsOfFirst(t, k - 1, |t|) + Slots(t, k - 1, |t|)) ==
             p * SlotsOfFirst(t, k - 1, |t|) + p * Slots(t, k - 1, |t|);
      assert k * |t| == (k - 1) * |t| + |t|;
    }
  }

  /** The excesses of all pools cancel out. */
  lemma ExcessesCancel(t: Table, p: nat)
    requires Within(t, p)
    ensures ExcessOfFirst(t, p, p) == 0
  {
    SlotsShareTable(t, p, |t|);
    ExcessIsSlots(t, p, p);
  }

  /** Twice the change of the excesses of the first k pools is between -k(k-1) and 2kn - k(k-1). */
  lemma {:induction false} ChangeOfFirst(t: Table, n: nat, k: nat)
    requires k <= n
    ensures var d := ExcessOfFirst(Step(t, n), n + 1, k) - ExcessOfFirst(t, n, k);
            -(k * k - k) <= 2 * d <= 2 * (k * n) - (k * k - k)
  {
    if k > 0 {
      ChangeOfFirst(t, n, k - 1);
      ExcessStep(t, n, k - 1);
      assert 0 <= (Slots(t, k - 1, |t|) + (k - 1)) % (n + 1) <= n;
      assert (k - 1) * (k - 1) == k * k - 2 * k + 1;
      assert (k - 1) * n == k * n - n;
    }
  }

  /** Every pool is within (p - 1) / 2 slots of its share: |p * c - LOOKUP_SZ| <= p(p-1)/2. */
  ghost predicate Balanced(t: Table, p: nat) {
    forall j :: 0 <= j < p ==> -(p * p - p) <= 2 * Excess(t, p, j) <= p * p - p
  }

  lemma StepBalanced(t: Table, n: nat)
    requires n >= 1 && Within(t, n) && Balanced(t, n)
    ensures Balanced(Step(t, n), n + 1)
  {
    hide Step, Excess, Slots, ExcessOfFirst, Within;
    var u, p := Step(t, n), n + 1;
    assert p * p - p == n * n + n;
    forall j | 0 <= j < p ensures -(p * p - p) <= 2 * Excess(u, p, j) <= p * p - p {
      if j < n {
        ExcessStep(t, n, j);
        assert 0 <= (Slots(t, j, |t|) + j) % (n + 1) <= n;
      } else {
        NewExcess(t, n);
        assert n * n - n <= n * n + n;
      }
    }
  }

  lemma StepWithin(t: Table, n: nat)
    requires Within(t, n)
    ensures Within(Step(t, n), n + 1)
  {}

  /** The excess of the new pool. */
  lemma NewExcess(t: Table, n: nat)
    requires Within(t, n)
    ensures -(n * n + n) <= 2 * Excess(Step(t, n), n + 1, n) <= n * n - n
  {
    hide Step, Excess, Slots, Within;
    StepWithin(t, n);
    ExcessesCancel(t, n);
    ExcessesCancel(Step(t, n), n + 1);
    ChangeOfFirst(t, n, n);
  }

  /** The balance bound, for every number of pools. */
  lemma {:induction false} BuildBalanced(p: nat)
    requires p >= 1
    ensures Balanced(Build(p), p)
    ensures SlotsOfFirst(Build(p), p, LOOKUP_SZ) == LOOKUP_SZ
  {
    hide Step, Within, Slots, SlotsOfFirst, Balanced;
    BuildWithin(p);
    SlotsShareTable(Build(p), p, LOOKUP_SZ);
    if p == 1 {
      OneBalanced();
    } else {
      BuildWithin(p - 1);
      BuildBalanced(p - 1);
      StepBalanced(Build(p - 1), p - 1);
    }
  }

  lemma OneBalanced()
    ensures Balanced(Build(1), 1)
  {
    AllZero(Build(1), LOOKUP_SZ);
  }

  lemma {:induction false} AllZero(t: Table, m: nat)
    requires m <= |t| && Within(t, 1)
    ensures Slots(t, 0, m) == m
  {
    if m > 0 {
      AllZero(t, m - 1);
    }
  }

  lemma {:induction false} HasSlot(t: Table, j: nat, m: nat)
    requires m <= |t| && Slots(t, j, m) > 0
    ensures j in t
  {
    if t[m - 1] != j {
      HasSlot(t, j, m - 1);
    }
  }

  /** Up to 128 pools, every pool is given some series. */
  lemma EveryPoolUsed(p: nat, j: nat)
    requires j < p <= 128
    ensures j in Build(p)
  {
    hide Build, Slots;
    BuildBalanced(p);
    var c := Slots(Build(p), j, LOOKUP_SZ);
    assert Excess(Build(p), p, j) == p * c - LOOKUP_SZ;
    ShareLeft(p, c);
    HasSlot(Build(p), j, LOOKUP_SZ);
  }

  lemma ShareLeft(p: nat, c: nat)
    requires p <= 128 && 2 * (p * c - LOOKUP_SZ) >= -(p * p - p)
    ensures c > 0
  {
    SquareBound(p);
    TimesZero(p, c);
  }

  lemma SquareBound(p: nat)
    requires p <= 128
    ensures p * p - p <= 128 * 127
  {
    assert (128 - p) * (127 + p) == 128 * 127 - p * p + p;
    assert (128 - p) * (127 + p) >= 0;
  }

  lemma TimesZero(p: nat, c: nat)
    ensures c == 0 ==> p * c == 0
  {}

  // ---- the tables of up to four pools ----

  /** The table repeats pat. */
  ghost predicate Repeats(t: Table, pat: Table) {
    pat != [] && forall i :: 0 <= i < |t| ==> t[i] == pat[i % |pat|]
  }

  lemma {:induction false} SlotsRepeat(t: Table, pat: Table, j: nat, m: nat)
    requires pat != [] && Repeats(t, pat) && m <= |t|
    ensures Slots(t, j, m) == m / |pat| * Slots(pat, j, |pat|) + Slots(pat, j, m % |pat|)
    decreases m
  {
    hide Repeats;
    if m == 0 {
      NoRound(pat, j);
    } else {
      SlotsRepeat(t, pat, j, m - 1);
      assert t[m - 1] == pat[(m - 1) % |pat|] by { RepeatsAt(t, pat, m - 1); }
      OneSlotMore(pat, j, m - 1);
    }
  }

  lemma RepeatsAt(t: Table, pat: Table, i: nat)
    requires Repeats(t, pat) && i < |t|
    ensures t[i] == pat[i % |pat|]
  {}

  lemma NoRound(pat: Table, j: nat)
    requires pat != []
    ensures 0 / |pat| * Slots(pat, j, |pat|) + Slots(pat, j, 0 % |pat|) == 0
  {
    Divided(0, |pat|, 0, 0);
    assert 0 * Slots(pat, j, |pat|) == 0;
  }

  lemma OneSlotMore(pat: Table, j: nat, m: nat)
    requires pat != []
    ensures (m + 1) / |pat| * Slots(pat, j, |pat|) + Slots(pat, j, (m + 1) % |pat|) ==
            m / |pat| * Slots(pat, j, |pat|) + Slots(pat, j, m % |pat|) + if pat[m % |pat|] == j then 1 else 0
  {
    hide Slots;
    var p, all := |pat|, Slots(pat, j, |pat|);
    var q, r := m / p, m % p;
    assert m == p * q + r;
    SlotsNext(pat, j, r);
    if r + 1 < p {
      Divided(m + 1, p, q, r + 1);
    } else {
      assert p * (q + 1) == p * q + p;
      Divided(m + 1, p, q + 1, 0);
      assert (q + 1) * all == q * all + all;
    }
  }

  lemma SlotsNext(t: Table, j: nat, m: nat)
    requires m < |t|
    ensures Slots(t, j, m + 1) == Slots(t, j, m) + if t[m] == j then 1 else 0
    ensures Slots(t, j, 0) == 0
  {}

  /** A round over a table that repeats pat, at slot r of a row. */
  lemma RoundRepeats(t: Table, pat: Table, n: nat, i: nat)
    requires Repeats(t, pat) && i < |t|
    ensures var j, all := pat[i % |pat|], Slots(pat, pat[i % |pat|], |pat|);
            Step(t, n)[i] ==
            if (j + (i + 1) / |pat| * all + Slots(pat, j, (i + 1) % |pat|)) % (n + 1) == 0 then n else j
  {
    SlotsRepeat(t, pat, pat[i % |pat|], i + 1);
  }

  /** Two pools take turns. */
  lemma TwoPools()
    ensures Repeats(Build(2), [0, 1])
  {
    var t := Build(1);
    assert Repeats(t, [0]);
    assert Slots([0], 0, 1) == 1 && Slots([0], 0, 0) == 0;
    forall i | 0 <= i < LOOKUP_SZ ensures Build(2)[i] == [0, 1][i % 2] {
      RoundRepeats(t, [0], 1, i);
    }
  }

  /** The table of three pools repeats every six slots. */
  lemma ThreePools()
    ensures Repeats(Build(3), [0, 1, 0, 2, 2, 1])
  {
    hide Slots, Step;
    TwoPools();
    forall i | 0 <= i < LOOKUP_SZ ensures Build(3)[i] == [0, 1, 0, 2, 2, 1][i % 6] {
      assert Build(3) == Step(Build(2), 2);
      RoundRepeats(Build(2), [0, 1], 2, i);
      ThreeAt(i / 6, i % 6);
      Divided(i, 2, 3 * (i / 6) + i % 6 / 2, i % 2);
    }
  }

  lemma ThreeAt(q: nat, r: nat)
    requires r < 6
    ensures var i, pat := 6 * q + r, [0, 1];
            var j, all := pat[i % 2], Slots(pat, pat[i % 2], 2);
            ((j + (i + 1) / 2 * all + Slots(pat, j, (i + 1) % 2)) % 3 == 0) == (r == 3 || r == 4)
    ensures [0, 1][(6 * q + r) % 2] == [0, 1, 0, 1, 0, 1][r]
  {
    hide Slots;
    var i := 6 * q + r;
    Divided(i, 2, 3 * q + r / 2, r % 2);
    Divided(i + 1, 2, 3 * q + (r + 1) / 2, (r + 1) % 2);
    TwoSlots(r % 2);
    ThreeRest(q, r % 2 + (r + 1) / 2 + Slots([0, 1], r % 2, (r + 1) % 2));
  }

  lemma ThreeRest(q: nat, x: nat)
    ensures (3 * q + x) % 3 == x % 3
  {}

  /** How often each of two pools has had its turn. */
  lemma TwoSlots(j: nat)
    requires j < 2
    ensures var pat := [0, 1];
            && Slots(pat, j, 0) == 0 && Slots(pat, j, 1) == (if j == 0 then 1 else 0) && Slots(pat, j, 2) == 1
  {
    hide Slots;
    SlotsNext([0, 1], j, 0);
    SlotsNext([0, 1], j, 1);
  }

  /** The table of four pools repeats every twelve slots. */
  lemma FourPools()
    ensures Repeats(Build(4), [0, 1, 0, 2, 3, 1, 0, 3, 3, 2, 2, 1])
  {
    hide Slots, Step;
    ThreePools();
    forall i | 0 <= i < LOOKUP_SZ ensures Build(4)[i] == [0, 1, 0, 2, 3, 1, 0, 3, 3, 2, 2, 1][i % 12] {
      assert Build(4) == Step(Build(3), 3);
      RoundRepeats(Build(3), [0, 1, 0, 2, 2, 1], 3, i);
      FourAt(i / 12, i % 12);
    }
  }

  lemma FourAt(q: nat, r: nat)
    requires r < 12
    ensures var i, pat := 12 * q + r, [0, 1, 0, 2, 2, 1];
            var j, all := pat[i % 6], Slots(pat, pat[i % 6], 6);
            ((j + (i + 1) / 6 * all + Slots(pat, j, (i + 1) % 6)) % 4 == 0) == (r == 4 || r == 7 || r == 8)
    ensures [0, 1, 0, 2, 2, 1][(12 * q + r) % 6] == [0, 1, 0, 2, 2, 1, 0, 1, 0, 2, 2, 1][r]
  {
    hide Slots;
    var pat, i := [0, 1, 0, 2, 2, 1], 12 * q + r;
    Divided(i, 6, 2 * q + r / 6, r % 6);
    Divided(i + 1, 6, 2 * q + (r + 1) / 6, (r + 1) % 6);
    SixSlots(pat[r % 6]);
    FourRest(q, pat[r % 6] + (r + 1) / 6 * 2 + Slots(pat, pat[r % 6], (r + 1) % 6));
    FourRow(r);
  }

  lemma FourRow(r: nat)
    requires r < 12
    ensures var pat := [0, 1, 0, 2, 2, 1];
            ((pat[r % 6] + (r + 1) / 6 * 2 + Slots(pat, pat[r % 6], (r + 1) % 6)) % 4 == 0) == (r == 4 || r == 7 || r == 8)
    ensures [0, 1, 0, 2, 2, 1][r % 6] == [0, 1, 0, 2, 2, 1, 0, 1, 0, 2, 2, 1][r]
  {
    hide Slots;
    SixSlots([0, 1, 0, 2, 2, 1][r % 6]);
  }

  lemma FourRest(q: nat, x: nat)
    ensures (4 * q + x) % 4 == x % 4
  {}

  /** How often each of three pools has had its turn. */
  lemma SixSlots(j: nat)
    requires j < 3
    ensures var pat := [0, 1, 0, 2, 2, 1];
            && Slots(pat, j, 0) == 0 && Slots(pat, j, 6) == 2
            && Slots(pat, j, 1) == (if j == 0 then 1 else 0) && Slots(pat, j, 2) == (if j < 2 then 1 else 0)
            && Slots(pat, j, 3) == (if j == 0 then 2 else if j == 1 then 1 else 0)
            && Slots(pat, j, 4) == (if j == 0 then 2 else 1) && Slots(pat, j, 5) == (if j == 1 then 1 else 2)
  {
    hide Slots;
    var pat := [0, 1, 0, 2, 2, 1];
    SlotsNext(pat, j, 0);
    SlotsNext(pat, j, 1);
    SlotsNext(pat, j, 2);
    SlotsNext(pat, j, 3);
    SlotsNext(pat, j, 4);
    SlotsNext(pat, j, 5);
  }

  // ---- series ----

  /** The value of a char, which is signed. */
  function CharValue(c: byte): (v: int)
    ensures -128 <= v < 128 && (v - c) % 256 == 0
  {
    if c < 128 then c else c - 256
  }

  function Sum(s: Bytes): int {
    if s == [] then 0 else Sum(s[..|s| - 1]) + CharValue(s[|s| - 1])
  }

  /** The sum of the bytes themselves. */
  function PlainSum(s: Bytes): nat {
    if s == [] then 0 else PlainSum(s[..|s| - 1]) + s[|s| - 1]
  }

  predicate IsPlain(s: Bytes) {
    forall i :: 0 <= i < |s| ==> s[i] < 128
  }

  lemma {:induction false} PlainSums(s: Bytes)
    requires IsPlain(s)
    ensures Sum(s) == PlainSum(s)
  {
    if s != [] {
      PlainSums(s[..|s| - 1]);
    }
  }

  /** A name of bytes below 128 is hashed to the plain sum of its bytes modulo the table's size; the
      32 bits in between make no difference. */
  lemma PlainSlot(s: Bytes)
    requires IsPlain(s)
    ensures Hash(s) % LOOKUP_SZ == PlainSum(s) % 8192
  {
    PlainSums(s);
    WordSlot(PlainSum(s));
  }

  lemma WordSlot(n: nat)
    ensures n % WORD % 8192 == n % 8192
  {
    var q, r := n / WORD, n % WORD;
    assert n == WORD * q + r;
    assert WORD == 8192 * 524288;
    Divided(n, 8192, 524288 * q + r / 8192, r % 8192);
  }

  const WORD: int := 0x1_0000_0000

  /** The hash of a name, kept in 32 bits. */
  function Hash(s: Bytes): nat {
    Sum(s) % WORD
  }

  lemma {:induction false} SumFront(s: Bytes)
    requires s != []
    ensures Sum(s) == CharValue(s[0]) + Sum(s[1..])
  {
    if |s| > 1 {
      SumFront(s[..|s| - 1]);
      assert s[1..][..|s| - 2] == s[..|s| - 1][1..];
    } else {
      assert s[..0] == s[1..];
    }
  }

  lemma HashNothing()
    ensures Hash([]) == 0
  {}

  lemma HashLast(s: Bytes)
    requires s != []
    ensures Hash(s) == (Hash(s[..|s| - 1]) + CharValue(s[|s| - 1])) % WORD
  {}

  lemma HashFirst(s: Bytes)
    requires s != []
    ensures Hash(s) == (Hash(s[1..]) + CharValue(s[0])) % WORD
  {
    SumFront(s);
  }

  /** The pool of a series when there are p pools. */
  function PoolOf(s: Bytes, p: nat): nat {
    Build(p)[Hash(s) % LOOKUP_SZ]
  }

  predicate Terminated(s: Bytes, len: nat) {
    len < |s| && s[len] == 0 && forall i :: 0 <= i < len ==> s[i] != 0
  }

  /** siridb_lookup_sn, on a zero-terminated name. */
  method Sn(lookup: array<nat>, sn: Bytes, ghost len: nat) returns (pool: nat)
    requires lookup.Length == LOOKUP_SZ && Terminated(sn, len)
    ensures pool == lookup[Hash(sn[..len]) % LOOKUP_SZ] % 0x1_0000
    ensures IsPlain(sn[..len]) ==> pool == lookup[PlainSum(sn[..len]) % 8192] % 0x1_0000
  {
    hide Hash, PlainSum, CharValue, IsPlain;
    if IsPlain(sn[..len]) {
      PlainSlot(sn[..len]);
    }
    HashNothing();
    var n, i := 0, 0;
    while sn[i] != 0
      invariant i <= len && n == Hash(sn[..i])
      decreases len - i
    {
      assert sn[..i + 1][..i] == sn[..i];
      HashLast(sn[..i + 1]);
      n := (n + CharValue(sn[i])) % WORD;
      i := i + 1;
    }
    pool := lookup[n % LOOKUP_SZ] % 0x1_0000;
  }

  /** siridb_lookup_sn_raw, on len bytes. */
  method SnRaw(lookup: array<nat>, sn: Bytes, len: nat) returns (pool: nat)
    requires lookup.Length == LOOKUP_SZ && len <= |sn|
    ensures pool == lookup[Hash(sn[..len]) % LOOKUP_SZ] % 0x1_0000
    ensures IsPlain(sn[..len]) ==> pool == lookup[PlainSum(sn[..len]) % 8192] % 0x1_0000
  {
    hide Hash, PlainSum, CharValue, IsPlain;
    if IsPlain(sn[..len]) {
      PlainSlot(sn[..len]);
    }
    HashNothing();
    var n, left := 0, len;
    assert sn[len..len] == [];
    while left > 0
      invariant 0 <= left <= len && n == Hash(sn[left..len])
    {
      left := left - 1;
      HashFirst(sn[left..len]);
      assert sn[left..len][1..] == sn[left + 1..len];
      n := (n + CharValue(sn[left])) % WORD;
    }
    assert sn[0..len] == sn[..len];
    pool := lookup[n % LOOKUP_SZ] % 0x1_0000;
  }

  /** Adding a pool moves series to the new pool only: a series keeps its pool or goes to pool p,
      and it goes there exactly when pool p takes over its slot. */
  lemma SeriesKeepPool(s: Bytes, p: nat)
    requires p >= 1
    ensures PoolOf(s, p + 1) == if Taken(Build(p), p, Hash(s) % LOOKUP_SZ) then p else PoolOf(s, p)
    ensures PoolOf(s, p + 1) == p <==> PoolOf(s, p + 1) != PoolOf(s, p)
  {
    BuildWithin(p);
    hide Taken, Hash;
  }
}
