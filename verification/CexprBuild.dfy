/** Building the tree of a where-clause from its tokens, with the nodes of the tree in a table. */
module CexprBuild {
  import opened Common

  const CEXPR_MAX_CURLY_DEPTH: nat := 6

  /** What a condition compares: a property, an operator and a value. */
  datatype Condition = Condition(prop: nat, operator: nat, value: int)

  datatype Op = And | Or

  datatype Via = Null | Cond(c: Condition) | Sub(i: nat)

  datatype Node = Node(op: Op, a: Via, b: Via)

  datatype Token = TProp(prop: nat) | TOperator(operator: nat) | TValue(value: int) | TAnd | TOr | TOpen | TClose

  datatype Expecting = Prop | Operator | Val | Next

  /** `list` holds the nodes in which a group is open; the nodes are named by their index. */
  datatype State = State(nodes: seq<Node>, cur: nat, list: seq<nat>, condition: Option<Condition>, expecting: Expecting)

  /** An assertion of the program that does not hold is an outcome too. */
  datatype Outcome = Ok(st: State) | TooDeep | Failed

  const NEW_NODE: Node := Node(And, Null, Null)
  const NEW_CONDITION: Option<Condition> := Some(Condition(0, 0, 0))

  predicate Valid(st: State) {
    && st.cur < |st.nodes|
    && forall i :: 0 <= i < |st.list| ==> st.list[i] < |st.nodes|
  }

  /** CEXPR_push_and */
  function PushAnd(st: State): (r: State)
    requires Valid(st)
  {
    var n := st.nodes[st.cur];
    if n.b == Null then st
    else
      var m := |st.nodes|;
      st.(nodes := st.nodes[st.cur := n.(b := Sub(m))] + [Node(And, n.b, Null)], cur := m)
  }

  /** CEXPR_push_or: the new node takes the place of the innermost open one in the list. */
  function PushOr(st: State): (r: State)
    requires Valid(st) && st.list != []
  {
    var n := st.nodes[st.cur];
    if n.b == Null then st.(nodes := st.nodes[st.cur := n.(op := Or)])
    else
      var m, top := |st.nodes|, |st.list| - 1;
      st.(nodes := st.nodes + [Node(Or, Sub(st.list[top]), Null)], cur := m, list := st.list[top := m])
  }

  /** The first free side of the current node is set. */
  function Push(st: State, v: Via): (r: State)
    requires Valid(st)
  {
    var n := st.nodes[st.cur];
    st.(nodes := st.nodes[st.cur := if n.a == Null then n.(a := v) else n.(b := v)])
  }

  predicate HasRoom(st: State)
    requires Valid(st)
  {
    st.nodes[st.cur].a == Null || st.nodes[st.cur].b == Null
  }

  /** CEXPR_push_condition */
  function PushCondition(st: State, c: Condition): Outcome
    requires Valid(st)
  {
    if HasRoom(st) then Ok(Push(st, Cond(c))) else Failed
  }

  /** CEXPR_open_curly */
  function OpenCurly(st: State): Outcome
    requires Valid(st)
  {
    if |st.list| == CEXPR_MAX_CURLY_DEPTH then TooDeep
    else if !HasRoom(st) then Failed
    else
      var m := |st.nodes|;
      var u := Push(st, Sub(m));
      Ok(u.(nodes := u.nodes + [NEW_NODE], cur := m, list := st.list + [st.cur]))
  }

  /** CEXPR_close_curly */
  function CloseCurly(st: State): Outcome {
    if st.list == [] then Failed
    else Ok(st.(cur := st.list[|st.list| - 1], list := st.list[..|st.list| - 1]))
  }

  /** One token of CEXPR_walk_node. */
  function Step(st: State, t: Token): (r: Outcome)
    requires Valid(st)
    ensures r.Ok? ==> Valid(r.st)
  {
    match st.expecting
    case Prop =>
      if t.TOpen? then OpenCurly(st)
      else if t.TProp? && st.condition.Some? then
        Ok(st.(condition := Some(st.condition.value.(prop := t.prop)), expecting := Operator))
      else Failed
    case Operator =>
      if t.TOperator? && st.condition.Some? then
        Ok(st.(condition := Some(st.condition.value.(operator := t.operator)), expecting := Val))
      else Failed
    case Val =>
      if t.TValue? && st.condition.Some? then
        var r := PushCondition(st, st.condition.value.(value := t.value));
        if r.Ok? then Ok(r.st.(condition := None, expecting := Next)) else r
      else Failed
    case Next =>
      if t.TAnd? then Ok(PushAnd(st).(condition := NEW_CONDITION, expecting := Prop))
      else if t.TOr? && st.list != [] then Ok(PushOr(st).(condition := NEW_CONDITION, expecting := Prop))
      else if t.TClose? then CloseCurly(st)
      else Failed
  }

  function Run(st: State, ts: seq<Token>): (r: Outcome)
    requires Valid(st)
    ensures r.Ok? ==> Valid(r.st)
    decreases |ts|
  {
    if ts == [] then Ok(st)
    else
      var r := Step(st, ts[0]);
      if r.Ok? then Run(r.st, ts[1..]) else r
  }

  /** Before the first token: the whole clause is taken as a group. */
  const START: State := State([Node(And, Sub(1), Null), NEW_NODE], 1, [0], NEW_CONDITION, Prop)

  /** cexpr_from_node: the root of the tree is the `cur` of the outcome. */
  function Build(ts: seq<Token>): (r: Outcome) {
    var r := Run(START, ts);
    if r.Ok? then
      var u := CloseCurly(r.st);
      if u.Ok? && u.st.list == [] && u.st.condition.None? then u else if u.Ok? then Failed else u
    else r
  }

  lemma {:induction false} RunConcat(st: State, a: seq<Token>, b: seq<Token>)
    requires Valid(st)
    ensures Run(st, a + b) == if Run(st, a).Ok? then Run(Run(st, a).st, b) else Run(st, a)
    decreases |a|
  {
    hide Step;
    if a == [] {
      assert a + b == b;
    } else {
      assert (a + b)[1..] == a[1..] + b;
      if Step(st, a[0]).Ok? {
        RunConcat(Step(st, a[0]).st, a[1..], b);
      }
    }
  }

  // ---- trees ----

  /** A tree as cexpr_run sees it: a node without its b side has the value of its a side. */
  datatype Tree = Leaf(c: Condition) | Only(a: Tree) | Both(op: Op, a: Tree, b: Tree)

  type Callback = Condition -> bool

  function Value(t: Tree, cb: Callback): bool {
    match t
    case Leaf(c) => cb(c)
    case Only(a) => Value(a, cb)
    case Both(And, a, b) => Value(a, cb) && Value(b, cb)
    case Both(Or, a, b) => Value(a, cb) || Value(b, cb)
  }

  /** v stands for the tree t, all of whose nodes have an index from lo up to hi. */
  predicate Rep(nodes: seq<Node>, v: Via, t: Tree, lo: nat, hi: nat)
    decreases t
  {
    match t
    case Leaf(c) => v == Cond(c)
    case Only(a) =>
      && v.Sub? && lo <= v.i < hi && v.i < |nodes|
      && nodes[v.i].op == And && nodes[v.i].b == Null && Rep(nodes, nodes[v.i].a, a, lo, hi)
    case Both(op, a, b) =>
      && v.Sub? && lo <= v.i < hi && v.i < |nodes|
      && nodes[v.i].op == op && Rep(nodes, nodes[v.i].a, a, lo, hi) && Rep(nodes, nodes[v.i].b, b, lo, hi)
  }

  lemma {:induction false} RepFrame(nodes: seq<Node>, more: seq<Node>, v: Via, t: Tree, lo: nat, hi: nat, l: nat, h: nat)
    requires Rep(nodes, v, t, lo, hi) && l <= lo && hi <= h
    requires |nodes| <= |more| && forall i :: lo <= i < hi && i < |nodes| ==> more[i] == nodes[i]
    ensures Rep(more, v, t, l, h)
    decreases t
  {
    match t
    case Leaf(_) =>
    case Only(a) => RepFrame(nodes, more, nodes[v.i].a, a, lo, hi, l, h);
    case Both(_, a, b) =>
      RepFrame(nodes, more, nodes[v.i].a, a, lo, hi, l, h);
      RepFrame(nodes, more, nodes[v.i].b, b, lo, hi, l, h);
  }
}
