/** Whole where-clauses: the tree that is built means what the clause means. */
module CexprClause {
  import opened Common
  import opened CexprBuild
  import opened CexprMeaning
  import opened CexprTree

  // ---- a clause is an `or` of runs without `or` ----

  function Head(g: Group): Group {
    match g
    case Last(_) => g
    case Chain(t, isOr, rest) => if isOr then Last(t) else Chain(t, false, Head(rest))
  }

  function Tail(g: Group): Option<Group> {
    match g
    case Last(_) => None
    case Chain(_, isOr, rest) => if isOr then Some(rest) else Tail(rest)
  }

  lemma {:induction false} HeadAndTail(g: Group)
    requires Fine(g)
    ensures NoOr(Head(g)) && Fine(Head(g)) && Depth(Head(g)) <= Depth(g)
    ensures Tail(g).Some? ==> Fine(Tail(g).value) && Depth(Tail(g).value) <= Depth(g) && Tail(g).value < g
    ensures Tokens(g) == Tokens(Head(g)) + if Tail(g).None? then [] else [TOr] + Tokens(Tail(g).value)
  {
    match g
    case Last(_) =>
    case Chain(t, isOr, rest) =>
      if !isOr {
        HeadAndTail(rest);
      }
  }

  lemma {:induction false} MeansHead(acc: bool, g: Group, cb: Callback)
    ensures MeansFrom(acc, g, cb) ==
            (MeansFrom(acc, Head(g), cb) || (Tail(g).Some? && Means(Tail(g).value, cb)))
    decreases g
  {
    match g
    case Last(_) =>
    case Chain(t, isOr, rest) =>
      if !isOr {
        MeansHead(acc && TermMeans(t, cb), rest, cb);
      }
  }

  // ---- building ----

  /** The tree below the only open node of the list. */
  ghost predicate Rooted(st: State, tree: Tree, n: nat) {
    |st.list| == 1 && Rep(st.nodes, Sub(st.list[0]), tree, 0, n)
  }

  ghost predicate SameTop(d: Tree, g: Group, tree: Tree) {
    forall cb: Callback :: Value(tree, cb) == (Value(d, cb) || Means(g, cb))
  }

  /** The rest of a clause behind an `or` at the top level. */
  lemma {:induction false} RunTop(st: State, g: Group, d: Tree) returns (r: State, tree: Tree)
    requires BehindTerm(st) && st.nodes[st.cur].b != Null && Rooted(st, d, |st.nodes|)
    requires Fine(g) && 1 + Depth(g) <= CEXPR_MAX_CURLY_DEPTH
    ensures Run(st, [TOr] + Tokens(g)) == Ok(r) && BehindTerm(r) && Rooted(r, tree, |r.nodes|)
    ensures SameTop(d, g, tree)
    decreases g, 1
  {
    hide Run, Rep, Step, Tokens, SameGroup, SameTop;
    HeadAndTail(g);
    var r0 := OrPushed(st);
    var r1, head := RunRest(r0, Head(g));
    var here := Both(Or, d, head);
    RepFrame(st.nodes, r1.nodes, Sub(st.list[0]), d, 0, |st.nodes|, 0, |r1.nodes|);
    RepFrame(r1.nodes, r1.nodes, r1.nodes[r0.cur].b, head, |r0.nodes|, |r1.nodes|, 0, |r1.nodes|);
    RepBoth(r1.nodes, r0.cur, Or, d, head, 0, |r1.nodes|);
    RunOne(st, TOr);
    RunConcat(st, [TOr], Tokens(Head(g)));
    SameHead(d, g, head);
    r, tree := RunTail(r1, Tail(g), here, g);
    if Tail(g).None? {
      assert [TOr] + Tokens(g) == [TOr] + Tokens(Head(g));
    } else {
      assert [TOr] + Tokens(g) == [TOr] + Tokens(Head(g)) + ([TOr] + Tokens(Tail(g).value));
      RunConcat(st, [TOr] + Tokens(Head(g)), [TOr] + Tokens(Tail(g).value));
      SameTail(d, g, here, tree);
    }
  }

  lemma {:induction false} RunTail(st: State, tail: Option<Group>, d: Tree, whole: Group) returns (r: State, tree: Tree)
    requires BehindTerm(st) && st.nodes[st.cur].b != Null && Rooted(st, d, |st.nodes|)
    requires tail.Some? ==> Fine(tail.value) && 1 + Depth(tail.value) <= CEXPR_MAX_CURLY_DEPTH && tail.value < whole
    ensures BehindTerm(r) && Rooted(r, tree, |r.nodes|)
    ensures tail.None? ==> r == st && tree == d
    ensures tail.Some? ==> Run(st, [TOr] + Tokens(tail.value)) == Ok(r) && SameTop(d, tail.value, tree)
    decreases whole, 0
  {
    r, tree := st, d;
    if tail.Some? {
      r, tree := RunTop(st, tail.value, d);
    }
  }

  lemma OrPushed(st: State) returns (r: State)
    requires BehindTerm(st) && st.nodes[st.cur].b != Null && |st.list| == 1
    ensures Step(st, TOr) == Ok(r) && ReadyForTerm(r) && r.list == [r.cur]
    ensures r.cur == |st.nodes| && r.nodes == st.nodes + [Node(Or, Sub(st.list[0]), Null)]
  {
    r := Step(st, TOr).st;
  }

  lemma SameHead(d: Tree, g: Group, head: Tree)
    requires SameGroup(Head(g), head)
    ensures forall cb: Callback :: Value(Both(Or, d, head), cb) == (Value(d, cb) || Means(Head(g), cb))
    ensures Tail(g).None? ==> SameTop(d, g, Both(Or, d, head))
  {
    forall cb: Callback ensures Means(g, cb) == (Means(Head(g), cb) || (Tail(g).Some? && Means(Tail(g).value, cb))) {
      MeansHead(true, g, cb);
    }
  }

  lemma SameTail(d: Tree, g: Group, here: Tree, tree: Tree)
    requires Tail(g).Some? && SameTop(here, Tail(g).value, tree)
    requires forall cb: Callback :: Value(here, cb) == (Value(d, cb) || Means(Head(g), cb))
    ensures SameTop(d, g, tree)
  {
    forall cb: Callback ensures Value(tree, cb) == (Value(d, cb) || Means(g, cb)) {
      MeansHead(true, g, cb);
    }
  }

  /** The first terms of a clause, up to the first `or` behind another connective. */
  lemma RunStart(g: Group) returns (r: State, tree: Tree)
    requires Fine(g) && 1 + Depth(g) <= CEXPR_MAX_CURLY_DEPTH
    ensures Run(START, Tokens(g)) == Ok(r) && BehindTerm(r) && Rooted(r, tree, |r.nodes|)
    ensures SameGroup(g, tree)
  {
    hide Run, Step, SameTerm, SameGroup;
    match g
    case Last(t) =>
      var v, only;
      r, v, only := RunTerm(START, t);
      SameLast(t, only);
      RepFrame(r.nodes, r.nodes, v, only, 2, |r.nodes|, 0, |r.nodes|);
      assert Rep(r.nodes, Sub(1), Only(only), 0, |r.nodes|);
      tree := Only(Only(only));
      assert SameGroup(g, tree) by { SameOnly(g, Only(only)); }
    case Chain(t, isOr, rest) =>
      r, tree := RunStartChain(t, isOr, rest);
  }

  lemma SameOnly(g: Group, a: Tree)
    requires SameGroup(g, a)
    ensures SameGroup(g, Only(a))
  {}

  lemma RunStartChain(t: Term, isOr: bool, rest: Group) returns (r: State, tree: Tree)
    requires Fine(Chain(t, isOr, rest)) && 1 + Depth(Chain(t, isOr, rest)) <= CEXPR_MAX_CURLY_DEPTH
    ensures Run(START, Tokens(Chain(t, isOr, rest))) == Ok(r) && BehindTerm(r) && Rooted(r, tree, |r.nodes|)
    ensures SameGroup(Chain(t, isOr, rest), tree)
  {
    hide Run, Step, Tokens, SameTerm, SameGroup, SameTop;
    HeadAndTail(rest);
    var r0, v, first := RunTerm(START, t);
    var r1 := FirstConnective(r0, isOr);
    var r2, second := RunRest(r1, Head(rest));
    var op := if isOr then Or else And;
    var inner := Both(op, first, second);
    RepFrame(r0.nodes, r2.nodes, v, first, 2, |r0.nodes|, 0, |r2.nodes|);
    RepFrame(r2.nodes, r2.nodes, r2.nodes[1].b, second, |r1.nodes|, |r2.nodes|, 0, |r2.nodes|);
    RepBoth(r2.nodes, 1, op, first, second, 0, |r2.nodes|);
    assert Rep(r2.nodes, Sub(1), inner, 0, |r2.nodes|);
    var start := Only(inner);
    r, tree := RunTail(r2, Tail(rest), start, rest);
    TokensOfChain(t, isOr, rest);
    Joined(START, r0, TermTokens(t), Connective(isOr), r1, Tokens(Head(rest)));
    StartMeans(t, isOr, rest, first, second);
    if Tail(rest).Some? {
      RunConcat(START, TermTokens(t) + [Connective(isOr)] + Tokens(Head(rest)), [TOr] + Tokens(Tail(rest).value));
      StartTail(t, isOr, rest, start, tree);
    } else {
      var front := TermTokens(t) + [Connective(isOr)] + Tokens(Head(rest));
      assert front + [] == front;
    }
  }

  lemma TokensOfChain(t: Term, isOr: bool, rest: Group)
    requires Fine(rest)
    ensures Tokens(Chain(t, isOr, rest)) ==
            TermTokens(t) + [Connective(isOr)] + Tokens(Head(rest)) +
            if Tail(rest).None? then [] else [TOr] + Tokens(Tail(rest).value)
  {
    HeadAndTail(rest);
    assert Tokens(Chain(t, isOr, rest)) == TermTokens(t) + [Connective(isOr)] + Tokens(rest);
  }

  /** The value of the clause up to its second `or` part. */
  ghost predicate StartValue(t: Term, isOr: bool, rest: Group, tree: Tree) {
    forall cb: Callback ::
      Value(tree, cb) == if isOr then TermMeans(t, cb) || Means(Head(rest), cb) else TermMeans(t, cb) && Means(Head(rest), cb)
  }

  lemma ChainMeans(t: Term, isOr: bool, rest: Group, cb: Callback)
    requires NoOr(Head(rest))
    ensures Means(Chain(t, isOr, rest), cb) ==
            ((if isOr then TermMeans(t, cb) || Means(Head(rest), cb) else TermMeans(t, cb) && Means(Head(rest), cb))
             || (Tail(rest).Some? && Means(Tail(rest).value, cb)))
  {
    if isOr {
      MeansHead(true, rest, cb);
    } else {
      MeansHead(TermMeans(t, cb), rest, cb);
      MeansFromNoOr(TermMeans(t, cb), Head(rest), cb);
    }
  }

  lemma StartMeans(t: Term, isOr: bool, rest: Group, first: Tree, second: Tree)
    requires SameTerm(t, first) && SameGroup(Head(rest), second) && NoOr(Head(rest))
    ensures var start := Only(Both(if isOr then Or else And, first, second));
            && StartValue(t, isOr, rest, start)
            && (Tail(rest).None? ==> SameGroup(Chain(t, isOr, rest), start))
  {
    forall cb: Callback ensures Means(Chain(t, isOr, rest), cb) ==
            ((if isOr then TermMeans(t, cb) || Means(Head(rest), cb) else TermMeans(t, cb) && Means(Head(rest), cb))
             || (Tail(rest).Some? && Means(Tail(rest).value, cb)))
    {
      ChainMeans(t, isOr, rest, cb);
    }
  }

  lemma StartTail(t: Term, isOr: bool, rest: Group, start: Tree, tree: Tree)
    requires StartValue(t, isOr, rest, start) && Tail(rest).Some? && SameTop(start, Tail(rest).value, tree)
    requires NoOr(Head(rest))
    ensures SameGroup(Chain(t, isOr, rest), tree)
  {
    forall cb: Callback ensures Value(tree, cb) == Means(Chain(t, isOr, rest), cb) {
      ChainMeans(t, isOr, rest, cb);
    }
  }

  /** The tree of a clause is built without a failing assertion, and it means what the clause
      means. */
  lemma BuildMeans(g: Group) returns (r: State, tree: Tree)
    requires Fine(g) && 1 + Depth(g) <= CEXPR_MAX_CURLY_DEPTH
    ensures Build(Tokens(g)) == Ok(r) && r.cur < |r.nodes| && Rep(r.nodes, Sub(r.cur), tree, 0, |r.nodes|)
    ensures forall cb: Callback :: Value(tree, cb) == Means(g, cb)
  {
    hide Run, Step, Rep, Tokens;
    var r0;
    r0, tree := RunStart(g);
    r := Build(Tokens(g)).st;
  }

  /** A clause in the domain of the program: its tree means what it means. */
  lemma FineMeans(g: Group)
    requires Fine(g) && 1 + Depth(g) <= CEXPR_MAX_CURLY_DEPTH
    ensures Build(Tokens(g)).Ok? && SameGroup(g, BuiltTree(Tokens(g)))
  {
    hide Build, Tokens, Rep;
    var r, tree := BuildMeans(g);
    OneTree(r.nodes, Sub(r.cur), tree, BuiltTree(Tokens(g)), |r.nodes|);
  }

  // ---- every clause is built, unless its groups are nested too deep ----

  lemma Connected(st: State, isOr: bool) returns (r: State)
    requires BehindTerm(st) && 0 < |st.list| <= CEXPR_MAX_CURLY_DEPTH
    ensures Step(st, Connective(isOr)) == Ok(r) && ReadyForTerm(r) && |r.list| == |st.list|
  {
    r := Step(st, Connective(isOr)).st;
  }

  /** A group is run between its brackets, whatever has become of the open nodes. */
  lemma Closed(st: State, open: State, r: State, ts: seq<Token>)
    requires Valid(st) && Step(st, TOpen) == Ok(open)
    requires Run(open, ts) == Ok(r) && BehindTerm(r) && r.list != []
    ensures Run(st, [TOpen] + ts + [TClose]) == CloseCurly(r)
  {
    hide Run;
    RunConcat(st, [TOpen], ts);
    RunOne(st, TOpen);
    RunConcat(st, [TOpen] + ts, [TClose]);
    RunOne(r, TClose);
  }

  lemma {:induction false} TermRuns(st: State, t: Term) returns (r: State)
    requires ReadyForTerm(st) && |st.list| + TermDepth(t) <= CEXPR_MAX_CURLY_DEPTH
    ensures Run(st, TermTokens(t)) == Ok(r) && BehindTerm(r) && |r.list| == |st.list|
    decreases t, 0
  {
    hide Run;
    match t
    case Single(c) =>
      var v, tree;
      r, v, tree := RunSingle(st, c);
    case Paren(g) =>
      var open := Opened(st);
      var u := GroupRuns(open, g);
      Closed(st, open, u, Tokens(g));
      r := CloseCurly(u).st;
  }

  lemma {:induction false} GroupRuns(st: State, g: Group) returns (r: State)
    requires ReadyForTerm(st) && st.list != [] && |st.list| + Depth(g) <= CEXPR_MAX_CURLY_DEPTH
    ensures Run(st, Tokens(g)) == Ok(r) && BehindTerm(r) && |r.list| == |st.list|
    decreases g, 1
  {
    hide Run, Step;
    match g
    case Last(t) => r := TermRuns(st, t);
    case Chain(t, isOr, rest) =>
      var u := TermRuns(st, t);
      var w := Connected(u, isOr);
      Joined(st, u, TermTokens(t), Connective(isOr), w, Tokens(rest));
      r := GroupRuns(w, rest);
  }

  lemma {:induction false} DeepTerm(st: State, t: Term)
    requires ReadyForTerm(st) && |st.list| + TermDepth(t) > CEXPR_MAX_CURLY_DEPTH
    ensures Run(st, TermTokens(t)) == TooDeep
    decreases t, 0
  {
    hide Run;
    var g := t.g;
    RunConcat(st, [TOpen] + Tokens(g), [TClose]);
    RunConcat(st, [TOpen], Tokens(g));
    RunOne(st, TOpen);
    if |st.list| < CEXPR_MAX_CURLY_DEPTH {
      var open := Opened(st);
      DeepGroup(open, g);
    }
  }

  lemma {:induction false} DeepGroup(st: State, g: Group)
    requires ReadyForTerm(st) && st.list != [] && |st.list| + Depth(g) > CEXPR_MAX_CURLY_DEPTH
    ensures Run(st, Tokens(g)) == TooDeep
    decreases g, 1
  {
    hide Run, Rep;
    match g
    case Last(t) => DeepTerm(st, t);
    case Chain(t, isOr, rest) =>
      assert Tokens(g) == TermTokens(t) + ([Connective(isOr)] + Tokens(rest));
      RunConcat(st, TermTokens(t), [Connective(isOr)] + Tokens(rest));
      if |st.list| + TermDepth(t) > CEXPR_MAX_CURLY_DEPTH {
        DeepTerm(st, t);
      } else {
        var u := TermRuns(st, t);
        var w := Connected(u, isOr);
        RunConcat(u, [Connective(isOr)], Tokens(rest));
        RunOne(u, Connective(isOr));
        DeepGroup(w, rest);
      }
  }

  /** A clause is refused exactly when more than five groups are nested in it, and any other one is
      built: no assertion of the program fails on a clause. */
  lemma BuildTooDeep(g: Group)
    ensures Build(Tokens(g)).TooDeep? <==> Depth(g) > 5
    ensures Build(Tokens(g)).Ok? <==> Depth(g) <= 5
  {
    hide Run, Step, Tokens;
    if 1 + Depth(g) > CEXPR_MAX_CURLY_DEPTH {
      DeepGroup(START, g);
    } else {
      var r := GroupRuns(START, g);
    }
  }
}
