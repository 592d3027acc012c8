/** The tree of a where-clause in the heap: each step of the builder keeps the nodes as
    CexprBuild specifies. */
module Cexpr {
  import opened Common
  import opened CexprBuild
  import opened CexprMeaning
  import opened CexprTree
  import opened CexprClause

  /** One side of a node: nothing, a condition or another node. */
  datatype Side = Empty | Holds(c: Condition) | Leads(e: Expr)

  class Expr {
    var operator: Op
    var a: Side
    var b: Side

    /** CEXPR_new */
    constructor ()
      ensures operator == And && a == Empty && b == Empty
    {
      operator, a, b := And, Empty, Empty;
    }
  }

  ghost predicate SameSide(objs: seq<Expr>, v: Via, s: Side) {
    match v
    case Null => s == Empty
    case Cond(c) => s == Holds(c)
    case Sub(i) => i < |objs| && s == Leads(objs[i])
  }

  ghost predicate SameNode(objs: seq<Expr>, n: Node, e: Expr)
    reads e
  {
    e.operator == n.op && SameSide(objs, n.a, e.a) && SameSide(objs, n.b, e.b)
  }

  /** The objects stand for the nodes of the table. */
  ghost predicate Table(objs: seq<Expr>, nodes: seq<Node>)
    reads objs
  {
    && |objs| == |nodes|
    && (forall i, j :: 0 <= i < j < |objs| ==> objs[i] != objs[j])
    && (forall i :: 0 <= i < |objs| ==> SameNode(objs, nodes[i], objs[i]))
  }

  lemma Extended(objs: seq<Expr>, nodes: seq<Node>, e: Expr, n: Node)
    requires Table(objs, nodes) && e !in objs && SameNode(objs + [e], n, e)
    ensures Table(objs + [e], nodes + [n])
  {
    var more := objs + [e];
    forall i | 0 <= i < |objs| ensures SameNode(more, nodes[i], more[i]) {
      assert SameNode(objs, nodes[i], objs[i]);
    }
  }

  datatype Status = Going | Refused | Asserted

  function StatusOf(r: Outcome): Status {
    match r
    case Ok(_) => Going
    case TooDeep => Refused
    case Failed => Asserted
  }

  /** The variables of cexpr_from_node. */
  class Builder {
    var cexpr: Expr
    var list: seq<Expr>
    var condition: Option<Condition>
    var expecting: Expecting

    ghost var objs: seq<Expr>
    ghost var st: State

    ghost predicate Valid()
      reads this, objs
    {
      && CexprBuild.Valid(st) && Table(objs, st.nodes)
      && cexpr == objs[st.cur]
      && |list| == |st.list| && (forall i :: 0 <= i < |list| ==> list[i] == objs[st.list[i]])
      && condition == st.condition && expecting == st.expecting
    }

    /** The start of cexpr_from_node. */
    constructor ()
      ensures Valid() && st == START && fresh(objs)
    {
      var root := new Expr();
      var top := new Expr();
      root.a := Leads(top);
      cexpr, list, condition, expecting := top, [root], NEW_CONDITION, Prop;
      objs, st := [root, top], START;
    }

    /** New objects are the only ones that join the table. */
    twostate predicate Grown()
      reads this
    {
      forall k :: 0 <= k < |objs| ==> objs[k] in old(objs) || fresh(objs[k])
    }

    /** Node i is written, and the table with it. */
    twostate lemma Written(i: nat)
      requires old(Table(objs, st.nodes)) && objs == old(objs) && i < |objs|
      requires forall j :: 0 <= j < |objs| && j != i ==> unchanged(objs[j])
      requires |st.nodes| == |objs| && st.nodes == old(st.nodes)[i := st.nodes[i]]
      requires SameNode(objs, st.nodes[i], objs[i])
      ensures Table(objs, st.nodes)
    {
      forall j | 0 <= j < |objs| && j != i ensures SameNode(objs, st.nodes[j], objs[j]) {
        assert old(SameNode(objs, st.nodes[j], objs[j]));
      }
    }

    /** What is known of the current node and the list. */
    lemma Current()
      requires Valid()
      ensures CexprBuild.Valid(st) && Table(objs, st.nodes) && |objs| == |st.nodes|
      ensures cexpr == objs[st.cur] && SameNode(objs, st.nodes[st.cur], cexpr)
      ensures |list| == |st.list| && forall i :: 0 <= i < |list| ==> list[i] == objs[st.list[i]]
      ensures forall i :: 0 <= i < |objs| && i != st.cur ==> objs[i] != cexpr
    {}

    /** CEXPR_push_and */
    method PushAnd()
      requires Valid()
      modifies this, objs
      ensures Valid() && st == CexprBuild.PushAnd(old(st)) && Grown()
    {
      hide Table;
      Current();
      if cexpr.b == Empty {
        return;
      }
      ghost var was, m := st, |st.nodes|;
      var newExpr := new Expr();
      newExpr.a := cexpr.b;
      Join(newExpr, Node(And, was.nodes[was.cur].b, Null));
      label before:
      cexpr.b := Leads(newExpr);
      st := st.(nodes := st.nodes[st.cur := was.nodes[was.cur].(b := Sub(m))]);
      Written@before(st.cur);
      cexpr := newExpr;
      st := st.(cur := m);
      assert st.nodes == CexprBuild.PushAnd(was).nodes;
    }

    /** A new object becomes the last of the table. */
    ghost method Join(e: Expr, n: Node)
      requires Valid() && e !in objs && SameNode(objs + [e], n, e)
      modifies this`objs, this`st
      ensures Valid() && objs == old(objs) + [e] && st == old(st).(nodes := old(st.nodes) + [n])
    {
      Extended(objs, st.nodes, e, n);
      objs, st := objs + [e], st.(nodes := st.nodes + [n]);
    }

    /** CEXPR_push_or */
    method PushOr()
      requires Valid() && st.list != []
      modifies this, objs
      ensures Valid() && st == CexprBuild.PushOr(old(st)) && Grown()
    {
      hide Table;
      Current();
      if cexpr.b == Empty {
        cexpr.operator := Or;
        st := CexprBuild.PushOr(st);
        Written(st.cur);
        return;
      }
      ghost var was, m := st, |st.nodes|;
      var newExpr := new Expr();
      var selected := |list| - 1;
      newExpr.operator := Or;
      newExpr.a := Leads(list[selected]);
      Join(newExpr, Node(Or, Sub(was.list[selected]), Null));
      list := list[selected := newExpr];
      cexpr := newExpr;
      st := st.(cur := m, list := was.list[selected := m]);
    }

    /** Sets the first free side of the current node. */
    method Push(s: Side, ghost v: Via)
      requires Valid() && SameSide(objs, v, s) && HasRoom(st)
      modifies this`st, cexpr
      ensures Valid() && st == CexprBuild.Push(old(st), v)
    {
      hide Table;
      Current();
      if cexpr.a == Empty {
        cexpr.a := s;
      } else {
        cexpr.b := s;
      }
      st := CexprBuild.Push(st, v);
      Written(st.cur);
    }

    /** CEXPR_push_condition, without its assertion. */
    method PushCondition(c: Condition)
      requires Valid() && HasRoom(st)
      modifies this`st, cexpr
      ensures Valid() && Ok(st) == CexprBuild.PushCondition(old(st), c)
    {
      Push(Holds(c), Cond(c));
    }

    /** CEXPR_open_curly */
    method OpenCurly() returns (rc: Status)
      requires Valid()
      modifies this, objs
      ensures Valid() && Grown() && rc == StatusOf(CexprBuild.OpenCurly(old(st)))
      ensures rc == Going ==> Ok(st) == CexprBuild.OpenCurly(old(st))
    {
      hide Table;
      Current();
      if |list| == CEXPR_MAX_CURLY_DEPTH {
        return Refused;
      }
      if cexpr.a != Empty && cexpr.b != Empty {
        return Asserted;
      }
      ghost var was, m := st, |st.nodes|;
      var newExpr := new Expr();
      Join(newExpr, NEW_NODE);
      list := list + [cexpr];
      st := st.(list := st.list + [st.cur]);
      Push(Leads(newExpr), Sub(m));
      cexpr := newExpr;
      st := st.(cur := m);
      assert st.nodes == CexprBuild.OpenCurly(was).st.nodes;
      rc := Going;
    }

    /** CEXPR_close_curly */
    method CloseCurly() returns (rc: Status)
      requires Valid()
      modifies this
      ensures Valid() && rc == StatusOf(CexprBuild.CloseCurly(old(st))) && objs == old(objs)
      ensures rc == Going ==> Ok(st) == CexprBuild.CloseCurly(old(st))
    {
      if |list| == 0 {
        return Asserted;
      }
      cexpr := list[|list| - 1];
      list := list[..|list| - 1];
      st := CexprBuild.CloseCurly(st).st;
      rc := Going;
    }
  
    /** One token of CEXPR_walk_node. */
    method Walk(t: Token) returns (rc: Status)
      requires Valid()
      modifies this, objs
      ensures Valid() && Grown() && rc == StatusOf(Step(old(st), t))
      ensures rc == Going ==> Ok(st) == Step(old(st), t)
    {
      hide Table, CexprBuild.PushAnd, CexprBuild.PushOr, CexprBuild.Push, CexprBuild.OpenCurly, CexprBuild.CloseCurly;
      rc := Asserted;
      match expecting {
        case Prop =>
          if t.TOpen? {
            rc := OpenCurly();
          } else if t.TProp? && condition.Some? {
            condition := Some(Condition(t.prop, condition.value.operator, condition.value.value));
            Expect(Operator);
            rc := Going;
          }
        case Operator =>
          if t.TOperator? && condition.Some? {
            condition := Some(Condition(condition.value.prop, t.operator, condition.value.value));
            Expect(Val);
            rc := Going;
          }
        case Val =>
          if t.TValue? && condition.Some? && (cexpr.a == Empty || cexpr.b == Empty) {
            Current();
            PushCondition(Condition(condition.value.prop, condition.value.operator, t.value));
            condition := None;
            Expect(Next);
            rc := Going;
          }
          Current();
        case Next =>
          if t.TAnd? {
            PushAnd();
            condition := NEW_CONDITION;
            Expect(Prop);
            rc := Going;
          } else if t.TOr? && |list| > 0 {
            PushOr();
            condition := NEW_CONDITION;
            Expect(Prop);
            rc := Going;
          } else if t.TClose? {
            rc := CloseCurly();
          }
      }
    }

    /** The condition has been set; what comes next is set with it. */
    method Expect(e: Expecting)
      requires CexprBuild.Valid(st) && Table(objs, st.nodes) && cexpr == objs[st.cur]
      requires |list| == |st.list| && forall i :: 0 <= i < |list| ==> list[i] == objs[st.list[i]]
      modifies this`expecting, this`st
      ensures Valid() && st == old(st).(condition := condition, expecting := e)
    {
      expecting := e;
      st := st.(condition := condition, expecting := e);
    }

    /** CEXPR_walk_node for the leaves of the parse tree. */
    method WalkAll(ts: seq<Token>) returns (rc: Status)
      requires Valid()
      modifies this, objs
      ensures Valid() && Grown() && rc == StatusOf(Run(old(st), ts))
      ensures rc == Going ==> Ok(st) == Run(old(st), ts)
    {
      hide Table, Step;
      var i := 0;
      rc := Going;
      while i < |ts|
        invariant i <= |ts| && Valid() && rc == Going
        invariant forall k :: 0 <= k < |objs| ==> objs[k] in old(objs) || fresh(objs[k])
        invariant Run(st, ts[i..]) == Run(old(st), ts)
      {
        assert ts[i..][0] == ts[i] && ts[i..][1..] == ts[i + 1..];
        rc := Walk(ts[i]);
        if rc != Going {
          return;
        }
        i := i + 1;
      }
    }
  }

  /** cexpr_from_node: the table shows which nodes the tree is made of. */
  method FromTokens(ts: seq<Token>) returns (rc: Status, root: Expr?, ghost objs: seq<Expr>)
    ensures rc == StatusOf(Build(ts))
    ensures rc == Going ==>
              var st := Build(ts).st;
              root != null && st.cur < |objs| && Table(objs, st.nodes) && root == objs[st.cur]
  {
    hide Table, Run;
    var b := new Builder();
    root := null;
    objs := b.objs;
    rc := b.WalkAll(ts);
    if rc == Going {
      rc := b.CloseCurly();
      if rc == Going {
        if |b.list| != 0 || b.condition != None {
          return Asserted, null, b.objs;
        }
        b.Current();
        root, objs := b.cexpr, b.objs;
      }
    }
  }

  /** cexpr_run */
  method RunTree(e: Expr, cb: Callback, ghost objs: seq<Expr>, ghost nodes: seq<Node>, ghost i: nat, ghost t: Tree)
      returns (r: bool)
    requires Table(objs, nodes) && i < |objs| && e == objs[i] && Rep(nodes, Sub(i), t, 0, |nodes|)
    ensures r == Value(t, cb)
    decreases t, 1
  {
    assert SameNode(objs, nodes[i], e);
    ghost var left := if t.Only? then t.a else if t.Both? then t.a else t;
    assert t.Only? || t.Both?;
    r := RunSide(e.a, cb, objs, nodes, nodes[i].a, left);
    if e.operator == And {
      if r && e.b != Empty {
        r := RunSide(e.b, cb, objs, nodes, nodes[i].b, t.b);
      }
    } else if !r {
      r := RunSide(e.b, cb, objs, nodes, nodes[i].b, t.b);
    }
  }

  method RunSide(s: Side, cb: Callback, ghost objs: seq<Expr>, ghost nodes: seq<Node>, ghost v: Via, ghost t: Tree)
      returns (r: bool)
    requires Table(objs, nodes) && SameSide(objs, v, s) && Rep(nodes, v, t, 0, |nodes|)
    ensures r == Value(t, cb)
    decreases t, 2
  {
    match s
    case Holds(c) => r := cb(c);
    case Leads(e) => r := RunTree(e, cb, objs, nodes, v.i, t);
  }

  /** Builds the tree of a clause and evaluates it. Only more than five nested groups are refused; the
      answer is the value of the tree, which is the clause's own in the domain of the program. */
  method Answer(g: Group, cb: Callback) returns (rc: Status, r: bool)
    ensures rc == if Depth(g) > 5 then Refused else Going
    ensures rc == Going ==> Build(Tokens(g)).Ok? && r == Value(BuiltTree(Tokens(g)), cb)
    ensures rc == Going && CexprMeaning.Fine(g) ==> r == Means(g, cb)
  {
    hide Table, Rep, Build;
    r := false;
    var root;
    ghost var objs;
    rc, root, objs := FromTokens(Tokens(g));
    BuildTooDeep(g);
    if 1 + Depth(g) <= CEXPR_MAX_CURLY_DEPTH {
      ghost var st := Build(Tokens(g)).st;
      r := RunTree(root, cb, objs, st.nodes, st.cur, BuiltTree(Tokens(g)));
      if CexprMeaning.Fine(g) {
        FineMeans(g);
      }
    }
  }
}
