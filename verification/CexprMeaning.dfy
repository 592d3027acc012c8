/** What the tree built from a where-clause means. */
module CexprMeaning {
  import opened Common
  import opened CexprBuild

  // ---- where-clauses ----

  datatype Term = Single(c: Condition) | Paren(g: Group)

  /** Terms joined by `and` and `or`. */
  datatype Group = Last(t: Term) | Chain(t: Term, isOr: bool, rest: Group)

  function Connective(isOr: bool): Token {
    if isOr then TOr else TAnd
  }

  function TermTokens(t: Term): seq<Token> {
    match t
    case Single(c) => [TProp(c.prop), TOperator(c.operator), TValue(c.value)]
    case Paren(g) => [TOpen] + Tokens(g) + [TClose]
  }

  function Tokens(g: Group): seq<Token> {
    match g
    case Last(t) => TermTokens(t)
    case Chain(t, isOr, rest) => TermTokens(t) + [Connective(isOr)] + Tokens(rest)
  }

  /** The number of groups open at the same time. */
  function TermDepth(t: Term): nat {
    match t
    case Single(_) => 0
    case Paren(g) => 1 + Depth(g)
  }

  function Depth(g: Group): nat {
    match g
    case Last(t) => TermDepth(t)
    case Chain(t, _, rest) => if TermDepth(t) < Depth(rest) then Depth(rest) else TermDepth(t)
  }

  // ---- the standard reading: `and` binds tighter than `or` ----

  function TermMeans(t: Term, cb: Callback): bool
    decreases t, 0
  {
    match t
    case Single(c) => cb(c)
    case Paren(g) => Means(g, cb)
  }

  function Means(g: Group, cb: Callback): bool
    decreases g, 1
  {
    MeansFrom(true, g, cb)
  }

  /** The meaning when `acc` is the value of the terms already joined by `and` to the first one. */
  function MeansFrom(acc: bool, g: Group, cb: Callback): bool
    decreases g, 0
  {
    match g
    case Last(t) => acc && TermMeans(t, cb)
    case Chain(t, false, rest) => MeansFrom(acc && TermMeans(t, cb), rest, cb)
    case Chain(t, true, rest) => (acc && TermMeans(t, cb)) || MeansFrom(true, rest, cb)
  }

  // ---- the clauses that are built right ----

  predicate NoOr(g: Group) {
    match g
    case Last(_) => true
    case Chain(_, isOr, rest) => !isOr && NoOr(rest)
  }

  /** In a nested group only the first connective may be an `or`. */
  predicate NestedFine(g: Group) {
    match g
    case Last(t) => TermFine(t)
    case Chain(t, _, rest) => TermFine(t) && NoOr(rest) && Fine(rest)
  }

  predicate TermFine(t: Term) {
    match t
    case Single(_) => true
    case Paren(g) => NestedFine(g)
  }

  /** All groups inside g are fine; g itself may have any connectives. */
  predicate Fine(g: Group) {
    match g
    case Last(t) => TermFine(t)
    case Chain(t, _, rest) => TermFine(t) && Fine(rest)
  }

  // ---- terms ----

  /** The state after a term has been set at the current node. */
  ghost predicate Placed(st: State, r: State, v: Via, t: Tree) {
    && Valid(st) && Valid(r)
    && r.cur == st.cur && r.list == st.list && r.expecting == Next && r.condition == None
    && v != Null && Rep(r.nodes, v, t, |st.nodes|, |r.nodes|)
    && Written(st.nodes, r.nodes, st.cur)
    && r.nodes[st.cur] == Push(st, v).nodes[st.cur]
  }

  /** Only node n of the old ones has changed. */
  ghost predicate Written(nodes: seq<Node>, more: seq<Node>, n: nat) {
    && |nodes| <= |more|
    && forall i :: 0 <= i < |nodes| && i != n ==> more[i] == nodes[i]
  }

  predicate ReadyForTerm(st: State) {
    Valid(st) && HasRoom(st) && st.expecting == Prop && st.condition == NEW_CONDITION && |st.list| <= CEXPR_MAX_CURLY_DEPTH
  }

  ghost predicate SameTerm(t: Term, tree: Tree) {
    forall cb: Callback :: Value(tree, cb) == TermMeans(t, cb)
  }

  ghost predicate SameGroup(g: Group, tree: Tree) {
    forall cb: Callback :: Value(tree, cb) == Means(g, cb)
  }

  lemma RunOne(st: State, t: Token)
    requires Valid(st)
    ensures Run(st, [t]) == Step(st, t)
  {
    var r := Step(st, t);
    if r.Ok? {
      assert Run(r.st, []) == Ok(r.st);
    }
  }

  lemma RunSingle(st: State, c: Condition) returns (r: State, v: Via, tree: Tree)
    requires ReadyForTerm(st)
    ensures Run(st, TermTokens(Single(c))) == Ok(r) && Placed(st, r, v, tree) && SameTerm(Single(c), tree)
  {
    var ts := TermTokens(Single(c));
    var s1 := Step(st, ts[0]).st;
    var s2 := Step(s1, ts[1]).st;
    r := Step(s2, ts[2]).st;
    assert ts[1..][1..] == [ts[2]];
    RunOne(s2, ts[2]);
    v, tree := Cond(c), Leaf(c);
  }

  /** The clause read so far ends with a whole term. */
  predicate BehindTerm(st: State) {
    Valid(st) && st.expecting == Next && st.condition == None
  }

  lemma {:induction false} RunTerm(st: State, t: Term) returns (r: State, v: Via, tree: Tree)
    requires ReadyForTerm(st) && TermFine(t) && |st.list| + TermDepth(t) <= CEXPR_MAX_CURLY_DEPTH
    ensures Run(st, TermTokens(t)) == Ok(r) && Placed(st, r, v, tree) && SameTerm(t, tree)
    decreases t, 0
  {
    match t
    case Single(c) => r, v, tree := RunSingle(st, c);
    case Paren(g) =>
      hide Run, Push;
      var open := Opened(st);
      var r1;
      r1, tree := RunNested(open, g);
      r := r1.(cur := st.cur, list := st.list);
      v := Sub(|st.nodes|);
      Bracketed(st, open, r1, Tokens(g));
      assert SameTerm(t, tree);
      FirstPart(st, open, r, v, tree);
  }

  lemma FirstPart(st: State, open: State, r: State, v: Via, tree: Tree)
    requires ReadyForTerm(st) && Step(st, TOpen) == Ok(open) && v == Sub(|st.nodes|)
    requires Written(open.nodes, r.nodes, open.cur) && Valid(r)
    requires r.cur == st.cur && r.list == st.list && r.expecting == Next && r.condition == None
    requires Rep(r.nodes, v, tree, |st.nodes|, |r.nodes|)
    ensures Placed(st, r, v, tree)
  {
    hide Rep;
  }

  lemma Opened(st: State) returns (open: State)
    requires ReadyForTerm(st) && |st.list| < CEXPR_MAX_CURLY_DEPTH
    ensures Step(st, TOpen) == Ok(open) && ReadyForTerm(open)
    ensures open.list == st.list + [st.cur] && open.cur == |st.nodes| == |open.nodes| - 1
    ensures open.nodes[open.cur] == NEW_NODE
  {
    open := Step(st, TOpen).st;
  }

  /** A group that is run between its brackets. */
  lemma Bracketed(st: State, open: State, r: State, ts: seq<Token>)
    requires Valid(st) && Step(st, TOpen) == Ok(open) && open.list == st.list + [st.cur]
    requires Run(open, ts) == Ok(r) && BehindTerm(r) && r.list == open.list
    ensures Run(st, [TOpen] + ts + [TClose]) == Ok(r.(cur := st.cur, list := st.list))
  {
    hide Run;
    RunConcat(st, [TOpen], ts);
    RunOne(st, TOpen);
    RunConcat(st, [TOpen] + ts, [TClose]);
    RunOne(r, TClose);
    assert (st.list + [st.cur])[..|st.list|] == st.list;
  }

  /** The terms behind a connective, up to the end of a group without another `or`: they become
      the b side of the current node. */
  lemma {:induction false} RunRest(st: State, g: Group) returns (r: State, tree: Tree)
    requires ReadyForTerm(st) && st.nodes[st.cur].a != Null
    requires NoOr(g) && Fine(g) && |st.list| + Depth(g) <= CEXPR_MAX_CURLY_DEPTH
    ensures Run(st, Tokens(g)) == Ok(r) && BehindTerm(r) && r.list == st.list && r.nodes[r.cur].b != Null
    ensures Written(st.nodes, r.nodes, st.cur)
    ensures r.nodes[st.cur].op == st.nodes[st.cur].op && r.nodes[st.cur].a == st.nodes[st.cur].a
    ensures r.nodes[st.cur].b != Null && Rep(r.nodes, r.nodes[st.cur].b, tree, |st.nodes|, |r.nodes|)
    ensures SameGroup(g, tree)
    decreases g, 1
  {
    hide Run, Rep, Step;
    match g
    case Last(t) =>
      var v;
      r, v, tree := RunTerm(st, t);
      SameLast(t, tree);
    case Chain(t, _, rest) =>
      var r0, v, first := RunTerm(st, t);
      var r1 := AndPushed(r0);
      Joined(st, r0, TermTokens(t), TAnd, r1, Tokens(rest));
      var second;
      r, second := RunRest(r1, rest);
      tree := Both(And, first, second);
      RepFrame(r0.nodes, r.nodes, v, first, |st.nodes|, |r0.nodes|, |st.nodes|, |r.nodes|);
      RepFrame(r.nodes, r.nodes, r.nodes[r1.cur].b, second, |r1.nodes|, |r.nodes|, |st.nodes|, |r.nodes|);
      RepBoth(r.nodes, r1.cur, And, first, second, |st.nodes|, |r.nodes|);
      SameChain(t, rest, first, second);
  }

  lemma RepBoth(nodes: seq<Node>, i: nat, op: Op, a: Tree, b: Tree, lo: nat, hi: nat)
    requires lo <= i < hi && i < |nodes| && nodes[i].op == op
    requires Rep(nodes, nodes[i].a, a, lo, hi) && Rep(nodes, nodes[i].b, b, lo, hi)
    ensures Rep(nodes, Sub(i), Both(op, a, b), lo, hi)
  {}

  lemma AndPushed(st: State) returns (r: State)
    requires BehindTerm(st) && st.nodes[st.cur].b != Null && |st.list| <= CEXPR_MAX_CURLY_DEPTH
    ensures Step(st, TAnd) == Ok(r) && ReadyForTerm(r) && r.list == st.list
    ensures r.cur == |st.nodes| == |r.nodes| - 1 && r.nodes[r.cur] == Node(And, st.nodes[st.cur].b, Null)
    ensures Written(st.nodes, r.nodes, st.cur) && r.nodes[st.cur] == st.nodes[st.cur].(b := Sub(r.cur))
  {
    r := Step(st, TAnd).st;
  }

  /** Two runs with a connective between them. */
  lemma Joined(st: State, r: State, ts: seq<Token>, c: Token, u: State, more: seq<Token>)
    requires Valid(st) && Run(st, ts) == Ok(r) && Step(r, c) == Ok(u)
    ensures Run(st, ts + [c] + more) == Run(u, more)
  {
    hide Run, Step;
    RunConcat(st, ts, [c]);
    RunOne(r, c);
    RunConcat(st, ts + [c], more);
  }

  lemma {:induction false} MeansFromNoOr(acc: bool, g: Group, cb: Callback)
    requires NoOr(g)
    ensures MeansFrom(acc, g, cb) == (acc && Means(g, cb))
    decreases g
  {
    match g
    case Last(_) =>
    case Chain(t, _, rest) =>
      MeansFromNoOr(acc && TermMeans(t, cb), rest, cb);
      MeansFromNoOr(TermMeans(t, cb), rest, cb);
  }

  lemma SameLast(t: Term, a: Tree)
    requires SameTerm(t, a)
    ensures SameGroup(Last(t), a) && SameGroup(Last(t), Only(a))
  {
    forall cb: Callback ensures Value(a, cb) == Means(Last(t), cb) {
      assert Value(a, cb) == TermMeans(t, cb);
    }
  }

  lemma SameChain(t: Term, rest: Group, a: Tree, b: Tree)
    requires SameTerm(t, a) && SameGroup(rest, b)
    ensures NoOr(rest) ==> SameGroup(Chain(t, false, rest), Both(And, a, b))
    ensures SameGroup(Chain(t, true, rest), Both(Or, a, b))
  {
    forall cb: Callback ensures NoOr(rest) ==> Value(Both(And, a, b), cb) == Means(Chain(t, false, rest), cb) {
      if NoOr(rest) {
        MeansFromNoOr(TermMeans(t, cb), rest, cb);
      }
    }
  }

  /** A nested group, from its opening to its closing bracket. */
  lemma {:induction false} RunNested(st: State, g: Group) returns (r: State, tree: Tree)
    requires ReadyForTerm(st) && st.cur == |st.nodes| - 1 && st.nodes[st.cur] == NEW_NODE
    requires NestedFine(g) && 0 < |st.list| <= |st.list| + Depth(g) <= CEXPR_MAX_CURLY_DEPTH
    ensures Run(st, Tokens(g)) == Ok(r) && BehindTerm(r) && r.list == st.list
    ensures Written(st.nodes, r.nodes, st.cur) && Rep(r.nodes, Sub(st.cur), tree, st.cur, |r.nodes|)
    ensures SameGroup(g, tree)
    decreases g, 2
  {
    hide Run, Step;
    match g
    case Last(t) =>
      var v, only;
      r, v, only := RunTerm(st, t);
      RepFrame(r.nodes, r.nodes, v, only, |st.nodes|, |r.nodes|, st.cur, |r.nodes|);
      tree := Only(only);
      SameLast(t, only);
    case Chain(t, isOr, rest) =>
      hide Rep;
      var r0, v, first := RunTerm(st, t);
      var r1 := FirstConnective(r0, isOr);
      Joined(st, r0, TermTokens(t), Connective(isOr), r1, Tokens(rest));
      var second;
      r, second := RunRest(r1, rest);
      tree := Both(if isOr then Or else And, first, second);
      RepFrame(r0.nodes, r.nodes, v, first, |st.nodes|, |r0.nodes|, st.cur, |r.nodes|);
      RepFrame(r.nodes, r.nodes, r.nodes[r1.cur].b, second, |r1.nodes|, |r.nodes|, st.cur, |r.nodes|);
      RepBoth(r.nodes, st.cur, tree.op, first, second, st.cur, |r.nodes|);
      SameChain(t, rest, first, second);
  }

  /** The first connective of a group decides about the operator of the group's own node. */
  lemma FirstConnective(st: State, isOr: bool) returns (r: State)
    requires BehindTerm(st) && st.nodes[st.cur].b == Null && st.nodes[st.cur].op == And
    requires 0 < |st.list| <= CEXPR_MAX_CURLY_DEPTH
    ensures Step(st, Connective(isOr)) == Ok(r) && ReadyForTerm(r) && r.list == st.list && r.cur == st.cur
    ensures r.nodes == st.nodes[st.cur := st.nodes[st.cur].(op := if isOr then Or else And)]
  {
    r := Step(st, Connective(isOr)).st;
  }
}
