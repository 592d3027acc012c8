/** A later `or` in a nested group: the condition behind it never reaches the tree. */
module CexprLost {
  import opened Common
  import opened CexprBuild
  import opened CexprMeaning
  import opened CexprClause
  import opened CexprTree
  import opened CexprEssential

  /** The nodes in X only lead to nodes in X and hold no condition of C, and the root will be one
      of them. */
  ghost predicate Apart(st: State, X: set<nat>, C: set<Condition>) {
    && Valid(st)
    && (forall i :: i in X ==> i < |st.nodes| && ViaApart(st.nodes[i].a, X, C) && ViaApart(st.nodes[i].b, X, C))
    && (if st.list == [] then st.cur else st.list[0]) in X
  }

  ghost predicate ViaApart(v: Via, X: set<nat>, C: set<Condition>) {
    && (v.Sub? ==> v.i in X)
    && (v.Cond? ==> v.c !in C)
  }

  ghost predicate AllIn(st: State, X: set<nat>) {
    forall i: nat :: i in X <==> i < |st.nodes|
  }

  predicate AtTerm(st: State) {
    Valid(st) && st.expecting == Prop && st.condition == NEW_CONDITION
  }

  // ---- single steps ----

  lemma PushKeeps(st: State, X: set<nat>, C: set<Condition>, v: Via)
    requires Apart(st, X, C) && (st.cur in X ==> ViaApart(v, X, C))
    ensures Apart(Push(st, v), X, C)
  {}

  lemma OpenKeeps(st: State, X: set<nat>, C: set<Condition>) returns (Y: set<nat>)
    requires Apart(st, X, C) && OpenCurly(st).Ok?
    ensures Apart(OpenCurly(st).st, Y, C) && (AllIn(st, X) ==> AllIn(OpenCurly(st).st, Y))
    ensures st.cur !in X ==> Y == X && OpenCurly(st).st.cur !in X
  {
    var m := |st.nodes|;
    Y := if st.cur in X then X + {m} else X;
  }

  lemma AndKeeps(st: State, X: set<nat>, C: set<Condition>) returns (Y: set<nat>)
    requires Apart(st, X, C)
    ensures Apart(PushAnd(st), Y, C) && (AllIn(st, X) ==> AllIn(PushAnd(st), Y))
  {
    Y := if st.nodes[st.cur].b != Null && st.cur in X then X + {|st.nodes|} else X;
  }

  lemma OrKeeps(st: State, X: set<nat>, C: set<Condition>) returns (Y: set<nat>)
    requires Apart(st, X, C) && st.list != []
    ensures Apart(PushOr(st), Y, C) && (AllIn(st, X) ==> AllIn(PushOr(st), Y))
  {
    var top := st.list[|st.list| - 1];
    Y := if st.nodes[st.cur].b != Null && top in X then X + {|st.nodes|} else X;
  }

  lemma ConnectiveKeeps(st: State, isOr: bool, X: set<nat>, C: set<Condition>) returns (r: State, Y: set<nat>)
    requires BehindTerm(st) && Apart(st, X, C) && st.list != []
    ensures Step(st, Connective(isOr)) == Ok(r) && AtTerm(r) && Apart(r, Y, C) && |r.list| == |st.list|
    ensures AllIn(st, X) ==> AllIn(r, Y)
  {
    r := Step(st, Connective(isOr)).st;
    if isOr {
      Y := OrKeeps(st, X, C);
    } else {
      Y := AndKeeps(st, X, C);
    }
  }

  // ---- runs ----

  /** The outcome of a run that is a good one as a whole. */
  ghost predicate Kept(st: State, ts: seq<Token>, r: State, Y: set<nat>, C: set<Condition>)
    requires Valid(st)
  {
    Run(st, ts) == Ok(r) && BehindTerm(r) && Apart(r, Y, C) && |r.list| == |st.list|
  }

  lemma SingleSteps(st: State, c: Condition)
    requires AtTerm(st) && Run(st, TermTokens(Single(c))).Ok?
    ensures HasRoom(st)
    ensures Run(st, TermTokens(Single(c))) == Ok(Push(st, Cond(c)).(condition := None, expecting := Next))
  {
    var ts := TermTokens(Single(c));
    var s1 := Step(st, ts[0]).st;
    var s2 := Step(s1, ts[1]).st;
    assert ts[1..][1..] == [ts[2]];
    RunOne(s2, ts[2]);
    assert Run(st, ts) == Step(s2, ts[2]);
  }

  /** A group in brackets is run from its opening on. */
  lemma BracketSteps(st: State, ts: seq<Token>) returns (open: State)
    requires AtTerm(st) && Run(st, [TOpen] + ts + [TClose]).Ok?
    ensures OpenCurly(st) == Ok(open) && AtTerm(open) && |open.list| == |st.list| + 1 && Run(open, ts).Ok?
    ensures var r := Run(open, ts).st;
            BehindTerm(r) ==> r.list != [] && Run(st, [TOpen] + ts + [TClose]) == CloseCurly(r)
  {
    hide Run;
    RunConcat(st, [TOpen] + ts, [TClose]);
    RunConcat(st, [TOpen], ts);
    RunOne(st, TOpen);
    open := OpenCurly(st).st;
    RunOne(Run(open, ts).st, TClose);
  }

  lemma CloseKeeps(st: State, X: set<nat>, C: set<Condition>)
    requires Apart(st, X, C) && |st.list| > 1
    ensures Apart(CloseCurly(st).st, X, C)
  {}

  lemma {:induction false} KeepTerm(st: State, t: Term, X: set<nat>, C: set<Condition>) returns (r: State, Y: set<nat>)
    requires AtTerm(st) && Apart(st, X, C) && st.list != [] && C !! TermConditions(t)
    requires Run(st, TermTokens(t)).Ok?
    ensures Kept(st, TermTokens(t), r, Y, C) && (AllIn(st, X) ==> AllIn(r, Y))
    decreases t, 0
  {
    hide Run;
    match t
    case Single(c) =>
      SingleSteps(st, c);
      PushKeeps(st, X, C, Cond(c));
      r, Y := Run(st, TermTokens(t)).st, X;
    case Paren(g) =>
      var open := BracketSteps(st, Tokens(g));
      var Z := OpenKeeps(st, X, C);
      var u;
      u, Y := KeepGroup(open, g, Z, C);
      CloseKeeps(u, Y, C);
      r := CloseCurly(u).st;
  }

  lemma {:induction false} KeepGroup(st: State, g: Group, X: set<nat>, C: set<Condition>) returns (r: State, Y: set<nat>)
    requires AtTerm(st) && Apart(st, X, C) && st.list != [] && C !! Conditions(g)
    requires Run(st, Tokens(g)).Ok?
    ensures Kept(st, Tokens(g), r, Y, C) && (AllIn(st, X) ==> AllIn(r, Y))
    decreases g, 2
  {
    hide Run;
    match g
    case Last(t) => r, Y := KeepTerm(st, t, X, C);
    case Chain(t, isOr, rest) =>
      ChainRuns(st, t, isOr, rest);
      var u, Z := KeepTerm(st, t, X, C);
      r, Y := KeepRest(u, isOr, rest, Z, C);
  }

  lemma ChainRuns(st: State, t: Term, isOr: bool, rest: Group)
    requires Valid(st) && Run(st, Tokens(Chain(t, isOr, rest))).Ok?
    ensures Run(st, TermTokens(t)).Ok?
    ensures Run(st, Tokens(Chain(t, isOr, rest))) ==
            Run(Run(st, TermTokens(t)).st, [Connective(isOr)] + Tokens(rest))
  {
    hide Run;
    assert Tokens(Chain(t, isOr, rest)) == TermTokens(t) + ([Connective(isOr)] + Tokens(rest));
    RunConcat(st, TermTokens(t), [Connective(isOr)] + Tokens(rest));
  }

  lemma {:induction false} KeepRest(st: State, isOr: bool, rest: Group, X: set<nat>, C: set<Condition>)
      returns (r: State, Y: set<nat>)
    requires BehindTerm(st) && Apart(st, X, C) && st.list != [] && C !! Conditions(rest)
    requires Run(st, [Connective(isOr)] + Tokens(rest)).Ok?
    ensures Kept(st, [Connective(isOr)] + Tokens(rest), r, Y, C) && (AllIn(st, X) ==> AllIn(r, Y))
    decreases rest, 3
  {
    hide Run, Step, Tokens;
    var u, Z := ConnectiveKeeps(st, isOr, X, C);
    RunConcat(st, [Connective(isOr)], Tokens(rest));
    RunOne(st, Connective(isOr));
    r, Y := KeepGroup(u, rest, Z, C);
  }

  // ---- losing a condition ----

  function TermFirst(t: Term): Condition {
    match t
    case Single(c) => c
    case Paren(g) => First(g)
  }

  function First(g: Group): Condition {
    match g
    case Last(t) => TermFirst(t)
    case Chain(t, _, _) => TermFirst(t)
  }

  lemma {:induction false} FirstIn(g: Group)
    ensures First(g) in Conditions(g)
  {
    match g
    case Last(t) => TermFirstIn(t);
    case Chain(t, _, _) => TermFirstIn(t);
  }

  lemma {:induction false} TermFirstIn(t: Term)
    ensures TermFirst(t) in TermConditions(t)
  {
    match t
    case Single(_) =>
    case Paren(g) => FirstIn(g);
  }

  /** A term that starts at a node apart from the tree is lost. */
  lemma {:induction false} LoseTerm(st: State, t: Term, X: set<nat>) returns (r: State, Y: set<nat>)
    requires AtTerm(st) && st.list != [] && st.cur !in X && TermDistinct(t)
    requires Apart(st, X, {TermFirst(t)}) && Run(st, TermTokens(t)).Ok?
    ensures Kept(st, TermTokens(t), r, Y, {TermFirst(t)})
    decreases t, 0
  {
    hide Run;
    match t
    case Single(c) =>
      SingleSteps(st, c);
      PushKeeps(st, X, {c}, Cond(c));
      r, Y := Run(st, TermTokens(t)).st, X;
    case Paren(g) =>
      var open := BracketSteps(st, Tokens(g));
      var Z := OpenKeeps(st, X, {First(g)});
      var u;
      u, Y := LoseGroup(open, g, Z);
      CloseKeeps(u, Y, {First(g)});
      r := CloseCurly(u).st;
  }

  lemma {:induction false} LoseGroup(st: State, g: Group, X: set<nat>) returns (r: State, Y: set<nat>)
    requires AtTerm(st) && st.list != [] && st.cur !in X && Distinct(g)
    requires Apart(st, X, {First(g)}) && Run(st, Tokens(g)).Ok?
    ensures Kept(st, Tokens(g), r, Y, {First(g)})
    decreases g, 2
  {
    hide Run;
    match g
    case Last(t) => r, Y := LoseTerm(st, t, X);
    case Chain(t, isOr, rest) =>
      ChainRuns(st, t, isOr, rest);
      TermFirstIn(t);
      var u, Z := LoseTerm(st, t, X);
      r, Y := KeepRest(u, isOr, rest, Z, {First(g)});
  }

  // ---- the first `or` that loses a condition ----

  lemma ApartLess(st: State, X: set<nat>, C: set<Condition>, D: set<Condition>)
    requires Apart(st, X, C) && D <= C
    ensures Apart(st, X, D)
  {
    forall v: Via | ViaApart(v, X, C) ensures ViaApart(v, X, D) {}
  }

  /** Nothing is lost before st, and t holds a group that is not fine. */
  ghost predicate Whole(st: State, X: set<nat>, C: set<Condition>) {
    ReadyForTerm(st) && st.list != [] && AllIn(st, X) && Apart(st, X, C)
  }

  lemma {:induction false} UnfineTerm(st: State, t: Term, X: set<nat>) returns (r: State, Y: set<nat>, c: Condition)
    requires Whole(st, X, TermConditions(t)) && !TermFine(t) && TermDistinct(t)
    requires |st.list| + TermDepth(t) <= CEXPR_MAX_CURLY_DEPTH && Run(st, TermTokens(t)).Ok?
    ensures c in TermConditions(t) && Kept(st, TermTokens(t), r, Y, {c})
    decreases t, 0
  {
    hide Run;
    var g := t.g;
    var open := BracketSteps(st, Tokens(g));
    var again := Opened(st);
    var Z := OpenKeeps(st, X, Conditions(g));
    var u;
    u, Y, c := UnfineNested(open, g, Z);
    CloseKeeps(u, Y, {c});
    r := CloseCurly(u).st;
  }

  /** A term that is fine is run, and nothing is lost. */
  lemma PassTerm(st: State, t: Term, rest: Group, isOr: bool, X: set<nat>) returns (u: State, v: Via, Y: set<nat>)
    requires Whole(st, X, Conditions(Chain(t, isOr, rest))) && TermFine(t) && Distinct(Chain(t, isOr, rest))
    requires |st.list| + TermDepth(t) <= CEXPR_MAX_CURLY_DEPTH
    ensures Run(st, TermTokens(t)) == Ok(u) && BehindTerm(u) && u.list == st.list && u.cur == st.cur
    ensures AllIn(u, Y) && Apart(u, Y, Conditions(rest))
    ensures v != Null && u.nodes[u.cur] == Push(st, v).nodes[st.cur]
  {
    hide Run, Rep, Push;
    var tree;
    u, v, tree := RunTerm(st, t);
    ApartLess(st, X, Conditions(Chain(t, isOr, rest)), Conditions(rest));
    var w;
    w, Y := KeepTerm(st, t, X, Conditions(rest));
  }

  lemma {:induction false} UnfineNested(st: State, g: Group, X: set<nat>) returns (r: State, Y: set<nat>, c: Condition)
    requires Whole(st, X, Conditions(g)) && !NestedFine(g) && Distinct(g)
    requires st.nodes[st.cur] == NEW_NODE && |st.list| > 1
    requires |st.list| + Depth(g) <= CEXPR_MAX_CURLY_DEPTH && Run(st, Tokens(g)).Ok?
    ensures c in Conditions(g) && Kept(st, Tokens(g), r, Y, {c})
    decreases g, 2
  {
    hide Run, Step, Tokens;
    match g
    case Last(t) =>
      TokensOfLast(t);
      r, Y, c := UnfineTerm(st, t, X);
    case Chain(t, isOr, rest) =>
      if !TermFine(t) {
        r, Y, c := UnfineFirst(st, t, isOr, rest, X);
      } else {
        var u, v, Z := PassTerm(st, t, rest, isOr, X);
        ChainRuns(st, t, isOr, rest);
        var w := FirstConnective(u, isOr);
        var w2, W := ConnectiveKeeps(u, isOr, Z, Conditions(rest));
        ConnectiveRuns(u, isOr, rest, w);
        r, Y, c := UnfineRest(w, rest, W);
      }
  }

  lemma TokensOfLast(t: Term)
    ensures Tokens(Last(t)) == TermTokens(t) && Conditions(Last(t)) == TermConditions(t)
  {}

  lemma ConnectiveRuns(st: State, isOr: bool, rest: Group, u: State)
    requires Valid(st) && Step(st, Connective(isOr)) == Ok(u)
    ensures Run(st, [Connective(isOr)] + Tokens(rest)) == Run(u, Tokens(rest))
  {
    hide Run, Step, Tokens;
    RunConcat(st, [Connective(isOr)], Tokens(rest));
    RunOne(st, Connective(isOr));
  }

  lemma {:induction false} UnfineFirst(st: State, t: Term, isOr: bool, rest: Group, X: set<nat>)
      returns (r: State, Y: set<nat>, c: Condition)
    requires Whole(st, X, Conditions(Chain(t, isOr, rest))) && !TermFine(t) && Distinct(Chain(t, isOr, rest))
    requires |st.list| + TermDepth(t) <= CEXPR_MAX_CURLY_DEPTH && Run(st, Tokens(Chain(t, isOr, rest))).Ok?
    ensures c in TermConditions(t) && Kept(st, Tokens(Chain(t, isOr, rest)), r, Y, {c})
    decreases t, 1
  {
    hide Run, Step, Tokens;
    ChainRuns(st, t, isOr, rest);
    ApartLess(st, X, Conditions(Chain(t, isOr, rest)), TermConditions(t));
    var u, Z;
    u, Z, c := UnfineTerm(st, t, X);
    r, Y := KeepRest(u, isOr, rest, Z, {c});
  }

  lemma {:induction false} UnfineRest(st: State, g: Group, X: set<nat>) returns (r: State, Y: set<nat>, c: Condition)
    requires Whole(st, X, Conditions(g)) && !(NoOr(g) && Fine(g)) && Distinct(g)
    requires st.nodes[st.cur].a != Null && |st.list| > 1
    requires |st.list| + Depth(g) <= CEXPR_MAX_CURLY_DEPTH && Run(st, Tokens(g)).Ok?
    ensures c in Conditions(g) && Kept(st, Tokens(g), r, Y, {c})
    decreases g, 2
  {
    hide Run, Step, Tokens;
    match g
    case Last(t) =>
      TokensOfLast(t);
      r, Y, c := UnfineTerm(st, t, X);
    case Chain(t, isOr, rest) =>
      if !TermFine(t) {
        r, Y, c := UnfineFirst(st, t, isOr, rest, X);
      } else {
        var u, v, Z := PassTerm(st, t, rest, isOr, X);
        ChainRuns(st, t, isOr, rest);
        if isOr {
          FirstIn(rest);
          var w := Unlinked(u, Z, Conditions(rest), First(rest));
          ConnectiveRuns(u, isOr, rest, w);
          c := First(rest);
          r, Y := LoseGroup(w, rest, Z);
        } else {
          var w := AndPushed(u);
          var w2, W := ConnectiveKeeps(u, isOr, Z, Conditions(rest));
          ConnectiveRuns(u, isOr, rest, w);
          r, Y, c := UnfineRest(w, rest, W);
        }
      }
  }

  /** CEXPR_push_or in a nested group: the new node is not linked below the root. */
  lemma Unlinked(st: State, X: set<nat>, C: set<Condition>, c: Condition) returns (r: State)
    requires BehindTerm(st) && st.nodes[st.cur].b != Null && |st.list| > 1
    requires AllIn(st, X) && Apart(st, X, C) && c in C
    ensures Step(st, TOr) == Ok(r) && AtTerm(r) && r.list != [] && r.cur !in X && Apart(r, X, {c})
    ensures |r.list| == |st.list|
  {
    r := Step(st, TOr).st;
    ApartLess(st, X, C, {c});
  }

  lemma {:induction false} UnfineTop(st: State, g: Group, X: set<nat>) returns (r: State, Y: set<nat>, c: Condition)
    requires Whole(st, X, Conditions(g)) && !Fine(g) && Distinct(g)
    requires |st.list| + Depth(g) <= CEXPR_MAX_CURLY_DEPTH && Run(st, Tokens(g)).Ok?
    ensures c in Conditions(g) && Kept(st, Tokens(g), r, Y, {c})
    decreases g, 2
  {
    hide Run, Step, Tokens;
    match g
    case Last(t) =>
      TokensOfLast(t);
      r, Y, c := UnfineTerm(st, t, X);
    case Chain(t, isOr, rest) =>
      if !TermFine(t) {
        r, Y, c := UnfineFirst(st, t, isOr, rest, X);
      } else {
        var u, v, Z := PassTerm(st, t, rest, isOr, X);
        ChainRuns(st, t, isOr, rest);
        var w, W := ConnectiveKeeps(u, isOr, Z, Conditions(rest));
        RoomAgain(u, isOr, w);
        ConnectiveRuns(u, isOr, rest, w);
        r, Y, c := UnfineTop(w, rest, W);
      }
  }

  lemma RoomAgain(st: State, isOr: bool, r: State)
    requires BehindTerm(st) && Step(st, Connective(isOr)) == Ok(r)
    ensures HasRoom(r)
  {}

  // ---- a lost condition changes the meaning ----

  function Leaves(t: Tree): set<Condition> {
    match t
    case Leaf(c) => {c}
    case Only(a) => Leaves(a)
    case Both(_, a, b) => Leaves(a) + Leaves(b)
  }

  lemma {:induction false} LeavesApart(st: State, X: set<nat>, c: Condition, v: Via, t: Tree, lo: nat, hi: nat)
    requires Apart(st, X, {c}) && ViaApart(v, X, {c}) && Rep(st.nodes, v, t, lo, hi)
    ensures c !in Leaves(t)
    decreases t
  {
    match t
    case Leaf(_) =>
    case Only(a) => LeavesApart(st, X, c, st.nodes[v.i].a, a, lo, hi);
    case Both(_, a, b) =>
      LeavesApart(st, X, c, st.nodes[v.i].a, a, lo, hi);
      LeavesApart(st, X, c, st.nodes[v.i].b, b, lo, hi);
  }

  lemma {:induction false} SameWithout(t: Tree, c: Condition, s: set<Condition>)
    requires c !in Leaves(t)
    ensures Value(t, Holding(s)) == Value(t, Holding(s + {c}))
  {
    match t
    case Leaf(d) =>
    case Only(a) => SameWithout(a, c, s);
    case Both(_, a, b) =>
      SameWithout(a, c, s);
      SameWithout(b, c, s);
  }

  /** The tree of any other clause gives the wrong answer for some data. */
  lemma UnfineDiffers(g: Group) returns (cb: Callback)
    requires !Fine(g) && Distinct(g) && 1 + Depth(g) <= CEXPR_MAX_CURLY_DEPTH
    ensures Build(Tokens(g)).Ok? && Value(BuiltTree(Tokens(g)), cb) != Means(g, cb)
  {
    hide Run, Rep, Step, Tokens;
    BuildTooDeep(g);
    var r, tree := Build(Tokens(g)).st, BuiltTree(Tokens(g));
    var u, Y, c := UnfineTop(START, g, {0, 1});
    assert Apart(r, Y, {c});
    LeavesApart(r, Y, c, Sub(r.cur), tree, 0, |r.nodes|);
    var s := Essential(g, c);
    SameWithout(tree, c, s);
    cb := if Value(tree, Holding(s)) then Holding(s) else Holding(s + {c});
  }

  /** Exactly which clauses are built right: those in whose nested groups only the first connective
      may be an `or`. */
  lemma BuiltRightIffFine(g: Group)
    requires Distinct(g) && 1 + Depth(g) <= CEXPR_MAX_CURLY_DEPTH
    ensures Build(Tokens(g)).Ok?
    ensures Fine(g) <==> SameGroup(g, BuiltTree(Tokens(g)))
  {
    hide Build, Tokens, Rep;
    if Fine(g) {
      FineMeans(g);
    } else {
      var cb := UnfineDiffers(g);
    }
  }

  /** A state of a build in which a whole term has just been read. */
  function Behind(nodes: seq<Node>, cur: nat, list: seq<nat>): State {
    State(nodes, cur, list, None, Next)
  }

  function At(nodes: seq<Node>, cur: nat, list: seq<nat>): State {
    State(nodes, cur, list, NEW_CONDITION, Prop)
  }

  lemma SingleRuns(st: State, c: Condition)
    requires ReadyForTerm(st)
    ensures Run(st, TermTokens(Single(c))) == Ok(Behind(Push(st, Cond(c)).nodes, st.cur, st.list))
  {
    hide Run, Step;
    var r, v, tree := RunSingle(st, c);
    SingleSteps(st, c);
  }

  /** The nodes while `x and (a and b or c)` is built: `here` is the node of the bracket. */
  function LostNodes(x: Condition, here: Node): seq<Node> {
    [Node(And, Sub(1), Null), Node(And, Cond(x), Sub(2)), here]
  }

  /** The new node of c leads to the node around the bracket, and nothing leads to the new node. */
  lemma OrStep(x: Condition, a: Condition, b: Condition, c: Condition)
    ensures var nodes := LostNodes(x, Node(And, Cond(a), Cond(b)));
            var r := At(nodes + [Node(Or, Sub(1), Null)], 3, [0, 3]);
            && Step(Behind(nodes, 2, [0, 1]), TOr) == Ok(r) && ReadyForTerm(r)
            && Push(r, Cond(c)).nodes == nodes + [Node(Or, Sub(1), Cond(c))]
  {}

  lemma AndStep(x: Condition, a: Condition, b: Condition)
    ensures var nodes := LostNodes(x, Node(And, Cond(a), Null));
            var st, r := At(LostNodes(x, NEW_NODE), 2, [0, 1]), At(nodes, 2, [0, 1]);
            && ReadyForTerm(st) && Push(st, Cond(a)).nodes == nodes
            && Step(Behind(nodes, 2, [0, 1]), TAnd) == Ok(r) && ReadyForTerm(r)
            && Push(r, Cond(b)).nodes == LostNodes(x, Node(And, Cond(a), Cond(b)))
  {}

  /** `a and b or c` from an opening bracket on. */
  lemma LostRun(x: Condition, a: Condition, b: Condition, c: Condition)
    ensures Run(At(LostNodes(x, NEW_NODE), 2, [0, 1]),
                Tokens(Chain(Single(a), false, Chain(Single(b), true, Last(Single(c)))))) ==
            Ok(Behind(LostNodes(x, Node(And, Cond(a), Cond(b))) + [Node(Or, Sub(1), Cond(c))], 3, [0, 3]))
  {
    hide Run, Step, Push, LostNodes;
    AndStep(x, a, b);
    OrStep(x, a, b, c);
    var list := [0, 1];
    var st, half, full := At(LostNodes(x, NEW_NODE), 2, list), LostNodes(x, Node(And, Cond(a), Null)),
      LostNodes(x, Node(And, Cond(a), Cond(b)));
    SingleRuns(st, a);
    Joined(st, Behind(half, 2, list), TermTokens(Single(a)), TAnd, At(half, 2, list),
           Tokens(Chain(Single(b), true, Last(Single(c)))));
    SingleRuns(At(half, 2, list), b);
    var last := At(full + [Node(Or, Sub(1), Null)], 3, [0, 3]);
    Joined(At(half, 2, list), Behind(full, 2, list), TermTokens(Single(b)), TOr, last, Tokens(Last(Single(c))));
    SingleRuns(last, c);
  }

  /** `x and (a and b or c)` is built as `x and (a and b)`: with x and c the program says no. */
  lemma OrIsLost(x: Condition, a: Condition, b: Condition, c: Condition) returns (g: Group)
    ensures g == Chain(Single(x), false, Last(Paren(Chain(Single(a), false, Chain(Single(b), true, Last(Single(c)))))))
    ensures Build(Tokens(g)).Ok?
    ensures BuiltTree(Tokens(g)) == Only(Both(And, Leaf(x), Both(And, Leaf(a), Leaf(b))))
    ensures x != a && x != b && c != a && c != b ==>
              var cb := Holding({x, c});
              Means(g, cb) && !Value(BuiltTree(Tokens(g)), cb)
  {
    hide Run, Means, MeansFrom;
    var inner := Chain(Single(a), false, Chain(Single(b), true, Last(Single(c))));
    g := Chain(Single(x), false, Last(Paren(inner)));
    var root := Node(And, Sub(1), Null);
    var half := [root, Node(And, Cond(x), Null)];
    SingleRuns(START, x);
    var st := At(half, 1, [0]);
    Joined(START, Behind(half, 1, [0]), TermTokens(Single(x)), TAnd, st, Tokens(Last(Paren(inner))));
    var open := At([root, Node(And, Cond(x), Sub(2)), NEW_NODE], 2, [0, 1]);
    assert Step(st, TOpen) == Ok(open);
    LostRun(x, a, b, c);
    var nodes := [root, Node(And, Cond(x), Sub(2)), Node(And, Cond(a), Cond(b)), Node(Or, Sub(1), Cond(c))];
    Closed(st, open, Behind(nodes, 3, [0, 3]), Tokens(inner));
    assert [0, 3][..1] == [0];
    assert Run(START, Tokens(g)) == Ok(Behind(nodes, 3, [0])) by {
      assert Tokens(Last(Paren(inner))) == [TOpen] + Tokens(inner) + [TClose];
      assert Tokens(g) == TermTokens(Single(x)) + [TAnd] + Tokens(Last(Paren(inner)));
    }
    assert Build(Tokens(g)).Ok? && Build(Tokens(g)).st.nodes == nodes && Build(Tokens(g)).st.cur == 0;
    var tree := Only(Both(And, Leaf(x), Both(And, Leaf(a), Leaf(b))));
    assert Rep(nodes, Sub(2), tree.a.b, 0, 4);
    assert Rep(nodes, Sub(1), tree.a, 0, 4);
    OneTree(nodes, Sub(0), tree, BuiltTree(Tokens(g)), 4);
    MeansOfLost(x, a, b, c);
    assert a !in {x, c} ==> !Value(tree.a.b, Holding({x, c}));
    assert a !in {x, c} ==> !Value(tree.a, Holding({x, c}));
  }

  lemma MeansOfLost(x: Condition, a: Condition, b: Condition, c: Condition)
    ensures var cb := Holding({x, c});
            var inner := Chain(Single(a), false, Chain(Single(b), true, Last(Single(c))));
            Means(Chain(Single(x), false, Last(Paren(inner))), cb)
  {
    var cb := Holding({x, c});
    var either := Chain(Single(b), true, Last(Single(c)));
    var inner := Chain(Single(a), false, either);
    assert MeansFrom(true, Last(Single(c)), cb);
    assert MeansFrom(cb(a), either, cb);
    assert Means(inner, cb);
    assert MeansFrom(cb(x), Last(Paren(inner)), cb);
  }
}
