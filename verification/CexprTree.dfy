/** Whatever the tokens are: what has been built when they end is a tree. */
module CexprTree {
  import opened Common
  import opened CexprBuild

  // ---- what every token keeps ----

  /** Every node has a higher rank than the nodes on its sides, so no node can be reached from itself. */
  ghost predicate Ranked(nodes: seq<Node>, rank: seq<nat>) {
    && |rank| == |nodes|
    && forall i :: 0 <= i < |nodes| ==> 0 < rank[i] && Below(nodes[i].a, rank, rank[i]) && Below(nodes[i].b, rank, rank[i])
  }

  ghost predicate Below(v: Via, rank: seq<nat>, r: nat) {
    v.Sub? ==> v.i < |rank| && rank[v.i] < r
  }

  predicate Complete(n: Node) {
    n.a != Null && (n.op == Or ==> n.b != Null)
  }

  /** A node with a free side: a new one, or one behind its connective. */
  predicate Waiting(n: Node) {
    n.b == Null && (n.a == Null ==> n.op == And)
  }

  /** Only the current node can be unfinished, and only when a term is expected. */
  ghost predicate Sound(st: State, rank: seq<nat>) {
    && Valid(st) && Ranked(st.nodes, rank)
    && (forall i :: 0 <= i < |st.nodes| && i != st.cur ==> Complete(st.nodes[i]))
    && (if st.expecting == Next then Complete(st.nodes[st.cur]) else Waiting(st.nodes[st.cur]))
    && (st.expecting == Next <==> st.condition.None?)
  }

  /** Ranks twice as high, with a new node just below node i. */
  function Squeezed(rank: seq<nat>, i: nat): (r: seq<nat>)
    requires i < |rank| && 0 < rank[i]
  {
    seq(|rank|, k requires 0 <= k < |rank| => 2 * rank[k]) + [2 * rank[i] - 1]
  }

  lemma PushSound(st: State, rank: seq<nat>, c: Condition)
    requires Sound(st, rank) && st.expecting != Next
    ensures HasRoom(st)
    ensures Sound(Push(st, Cond(c)).(condition := None, expecting := Next), rank)
  {}

  lemma AndSound(st: State, rank: seq<nat>) returns (r: seq<nat>)
    requires Sound(st, rank) && st.expecting == Next
    ensures Sound(PushAnd(st).(condition := NEW_CONDITION, expecting := Prop), r)
  {
    r := if st.nodes[st.cur].b == Null then rank else Squeezed(rank, st.cur);
  }

  lemma OrSound(st: State, rank: seq<nat>) returns (r: seq<nat>)
    requires Sound(st, rank) && st.expecting == Next && st.list != []
    ensures Sound(PushOr(st).(condition := NEW_CONDITION, expecting := Prop), r)
  {
    r := if st.nodes[st.cur].b == Null then rank else rank + [rank[st.list[|st.list| - 1]] + 1];
  }

  lemma OpenSound(st: State, rank: seq<nat>) returns (r: seq<nat>)
    requires Sound(st, rank) && st.expecting == Prop && OpenCurly(st).Ok?
    ensures Sound(OpenCurly(st).st, r)
  {
    r := Squeezed(rank, st.cur);
  }

  lemma StepSound(st: State, rank: seq<nat>, t: Token) returns (r: seq<nat>)
    requires Sound(st, rank) && Step(st, t).Ok?
    ensures Sound(Step(st, t).st, r)
  {
    hide Ranked;
    r := rank;
    match st.expecting
    case Prop =>
      if t.TOpen? {
        r := OpenSound(st, rank);
      }
    case Operator =>
    case Val => PushSound(st, rank, st.condition.value.(value := t.value));
    case Next =>
      if t.TAnd? {
        r := AndSound(st, rank);
      } else if t.TOr? {
        r := OrSound(st, rank);
      }
  }

  lemma {:induction false} RunSound(st: State, rank: seq<nat>, ts: seq<Token>) returns (r: seq<nat>)
    requires Sound(st, rank) && Run(st, ts).Ok?
    ensures Sound(Run(st, ts).st, r)
    decreases |ts|
  {
    hide Step, Ranked;
    if ts == [] {
      r := rank;
    } else {
      r := StepSound(st, rank, ts[0]);
      r := RunSound(Step(st, ts[0]).st, r, ts[1..]);
    }
  }

  // ---- the tree ----

  lemma {:induction false} TreeAt(nodes: seq<Node>, rank: seq<nat>, i: nat) returns (t: Tree)
    requires Ranked(nodes, rank) && (forall k :: 0 <= k < |nodes| ==> Complete(nodes[k])) && i < |nodes|
    ensures Rep(nodes, Sub(i), t, 0, |nodes|)
    decreases rank[i], 0
  {
    var a := TreeBelow(nodes, rank, nodes[i].a, rank[i]);
    if nodes[i].b == Null {
      t := Only(a);
    } else {
      var b := TreeBelow(nodes, rank, nodes[i].b, rank[i]);
      t := Both(nodes[i].op, a, b);
    }
  }

  lemma {:induction false} TreeBelow(nodes: seq<Node>, rank: seq<nat>, v: Via, r: nat) returns (t: Tree)
    requires Ranked(nodes, rank) && (forall k :: 0 <= k < |nodes| ==> Complete(nodes[k]))
    requires v != Null && Below(v, rank, r)
    ensures Rep(nodes, v, t, 0, |nodes|)
    decreases r, 0, v
  {
    match v
    case Cond(c) => t := Leaf(c);
    case Sub(i) => t := TreeAt(nodes, rank, i);
  }

  /** cexpr_from_node never returns anything but a tree: every node is complete and there are no cycles. */
  lemma BuildsTree(ts: seq<Token>) returns (t: Tree)
    requires Build(ts).Ok?
    ensures var st := Build(ts).st; st.cur < |st.nodes| && Rep(st.nodes, Sub(st.cur), t, 0, |st.nodes|)
  {
    assert Sound(START, [2, 1]);
    var rank := RunSound(START, [2, 1], ts);
    var st := Run(START, ts).st;
    t := TreeAt(st.nodes, rank, st.list[0]);
  }

  /** No more than one tree is represented. */
  lemma {:induction false} OneTree(nodes: seq<Node>, v: Via, t: Tree, u: Tree, hi: nat)
    requires Rep(nodes, v, t, 0, hi) && Rep(nodes, v, u, 0, hi)
    ensures t == u
    decreases t
  {
    match t
    case Leaf(_) =>
    case Only(a) => OneTree(nodes, nodes[v.i].a, a, u.a, hi);
    case Both(_, a, b) =>
      OneTree(nodes, nodes[v.i].a, a, u.a, hi);
      OneTree(nodes, nodes[v.i].b, b, u.b, hi);
  }

  lemma TreeExists(ts: seq<Token>)
    requires Build(ts).Ok?
    ensures var st := Build(ts).st;
            st.cur < |st.nodes| && exists t :: Rep(st.nodes, Sub(st.cur), t, 0, |st.nodes|)
  {
    var t := BuildsTree(ts);
  }

  /** The tree that cexpr_run walks. */
  ghost function BuiltTree(ts: seq<Token>): (t: Tree)
    requires Build(ts).Ok?
    ensures var st := Build(ts).st; st.cur < |st.nodes| && Rep(st.nodes, Sub(st.cur), t, 0, |st.nodes|)
  {
    var st := Build(ts).st;
    TreeExists(ts);
    var t :| Rep(st.nodes, Sub(st.cur), t, 0, |st.nodes|);
    t
  }
}
