/** The standard reading of a where-clause in one sentence: some run of terms between two `or`s holds
    as a whole. */
module CexprReading {
  import opened CexprBuild
  import opened CexprMeaning

  /** The terms of a group, cut at every `or`. */
  function Runs(g: Group): (rs: seq<seq<Term>>)
    ensures rs != []
  {
    match g
    case Last(t) => [[t]]
    case Chain(t, isOr, rest) =>
      var rs := Runs(rest);
      if isOr then [[t]] + rs else [[t] + rs[0]] + rs[1..]
  }

  ghost predicate AllHold(ts: seq<Term>, cb: Callback) {
    forall j :: 0 <= j < |ts| ==> TermMeans(ts[j], cb)
  }

  lemma AllHoldFront(t: Term, ts: seq<Term>, cb: Callback)
    ensures AllHold([t] + ts, cb) <==> TermMeans(t, cb) && AllHold(ts, cb)
  {
    var all := [t] + ts;
    assert all[0] == t && forall j :: 0 <= j < |ts| ==> all[j + 1] == ts[j];
  }

  /** Some run from the i-th on holds as a whole. */
  ghost predicate SomeHolds(rs: seq<seq<Term>>, i: nat, cb: Callback) {
    exists k :: i <= k < |rs| && AllHold(rs[k], cb)
  }

  /** Runs in front of others. */
  lemma SomeBehind(r: seq<Term>, rs: seq<seq<Term>>, cb: Callback)
    ensures SomeHolds([r] + rs, 0, cb) <==> AllHold(r, cb) || SomeHolds(rs, 0, cb)
    ensures SomeHolds([r] + rs, 1, cb) <==> SomeHolds(rs, 0, cb)
  {
    hide AllHold;
    var all := [r] + rs;
    assert all[0] == r && forall k :: 0 <= k < |rs| ==> all[k + 1] == rs[k];
    forall k | 1 <= k < |all| ensures all[k] == rs[k - 1] {}
  }

  lemma {:induction false} MeansFromRuns(acc: bool, g: Group, cb: Callback)
    ensures MeansFrom(acc, g, cb) <==> (acc && AllHold(Runs(g)[0], cb)) || SomeHolds(Runs(g), 1, cb)
    decreases g
  {
    hide AllHold, SomeHolds;
    match g
    case Last(t) =>
      OneHolds(t, cb);
      NoRuns(Runs(g), cb);
    case Chain(t, isOr, rest) =>
      var more := Runs(rest);
      assert [more[0]] + more[1..] == more;
      SomeBehind(more[0], more[1..], cb);
      if isOr {
        MeansFromRuns(true, rest, cb);
        OneHolds(t, cb);
        SomeBehind([t], more, cb);
      } else {
        MeansFromRuns(acc && TermMeans(t, cb), rest, cb);
        AllHoldFront(t, more[0], cb);
        SomeBehind([t] + more[0], more[1..], cb);
      }
  }

  lemma OneHolds(t: Term, cb: Callback)
    ensures AllHold([t], cb) <==> TermMeans(t, cb)
  {
    AllHoldFront(t, [], cb);
    assert [t] + [] == [t];
  }

  lemma NoRuns(rs: seq<seq<Term>>, cb: Callback)
    requires |rs| == 1
    ensures !SomeHolds(rs, 1, cb)
  {}

  /** A clause holds when all terms of one of its runs do: `and` binds tighter than `or`. */
  lemma MeansRuns(g: Group, cb: Callback)
    ensures Means(g, cb) <==> exists i :: 0 <= i < |Runs(g)| && AllHold(Runs(g)[i], cb)
  {
    hide AllHold, Runs;
    MeansFromRuns(true, g, cb);
    var rs := Runs(g);
    assert [rs[0]] + rs[1..] == rs;
    SomeBehind(rs[0], rs[1..], cb);
  }
}
