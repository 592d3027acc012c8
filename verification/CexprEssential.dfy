/** In a where-clause whose conditions are all different, every condition matters. */
module CexprEssential {
  import opened Common
  import opened CexprBuild
  import opened CexprMeaning
  import opened CexprClause

  function TermConditions(t: Term): set<Condition> {
    match t
    case Single(c) => {c}
    case Paren(g) => Conditions(g)
  }

  function Conditions(g: Group): set<Condition> {
    match g
    case Last(t) => TermConditions(t)
    case Chain(t, _, rest) => TermConditions(t) + Conditions(rest)
  }

  predicate TermDistinct(t: Term) {
    match t
    case Single(_) => true
    case Paren(g) => Distinct(g)
  }

  predicate Distinct(g: Group) {
    match g
    case Last(t) => TermDistinct(t)
    case Chain(t, _, rest) => TermDistinct(t) && Distinct(rest) && TermConditions(t) !! Conditions(rest)
  }

  /** The conditions in s hold and no others. */
  function Holding(s: set<Condition>): Callback {
    x => x in s
  }

  // ---- the meaning depends on the conditions of the clause only ----

  lemma {:induction false} TermLocal(t: Term, s: set<Condition>, u: set<Condition>)
    requires s * TermConditions(t) == u * TermConditions(t)
    ensures TermMeans(t, Holding(s)) == TermMeans(t, Holding(u))
    decreases t, 0
  {
    match t
    case Single(c) =>
      assert c in s <==> c in s * {c};
      assert c in u <==> c in u * {c};
    case Paren(g) => GroupLocal(true, g, s, u);
  }

  lemma {:induction false} GroupLocal(acc: bool, g: Group, s: set<Condition>, u: set<Condition>)
    requires s * Conditions(g) == u * Conditions(g)
    ensures MeansFrom(acc, g, Holding(s)) == MeansFrom(acc, g, Holding(u))
    decreases g, 1
  {
    match g
    case Last(t) => TermLocal(t, s, u);
    case Chain(t, isOr, rest) =>
      Part(s, u, TermConditions(t), Conditions(rest));
      TermLocal(t, s, u);
      GroupLocal(if isOr then true else acc && TermMeans(t, Holding(s)), rest, s, u);
  }

  lemma Part(s: set<Condition>, u: set<Condition>, a: set<Condition>, b: set<Condition>)
    requires s * (a + b) == u * (a + b)
    ensures s * a == u * a && s * b == u * b
  {
    assert s * a == s * (a + b) * a && u * a == u * (a + b) * a;
    assert s * b == s * (a + b) * b && u * b == u * (a + b) * b;
  }

  lemma {:induction false} TermAll(t: Term, s: set<Condition>)
    ensures TermConditions(t) <= s ==> TermMeans(t, Holding(s))
    ensures TermConditions(t) !! s ==> !TermMeans(t, Holding(s))
    decreases t, 0
  {
    match t
    case Single(_) =>
    case Paren(g) => GroupAll(true, g, s);
  }

  /** With all conditions of a group it holds, with none of them it does not. */
  lemma {:induction false} GroupAll(acc: bool, g: Group, s: set<Condition>)
    ensures acc && Conditions(g) <= s ==> MeansFrom(acc, g, Holding(s))
    ensures Conditions(g) !! s ==> !MeansFrom(acc, g, Holding(s))
    decreases g, 1
  {
    match g
    case Last(t) => TermAll(t, s);
    case Chain(t, isOr, rest) =>
      TermAll(t, s);
      GroupAll(if isOr then true else acc && TermMeans(t, Holding(s)), rest, s);
  }

  // ---- a valuation in which one condition decides ----

  /** c decides about g when exactly the conditions in s hold otherwise. */
  ghost predicate Decides(c: Condition, s: set<Condition>, g: Group) {
    && c !in s && s <= Conditions(g)
    && !Means(g, Holding(s)) && Means(g, Holding(s + {c}))
  }

  ghost predicate TermDecides(c: Condition, s: set<Condition>, t: Term) {
    && c !in s && s <= TermConditions(t)
    && !TermMeans(t, Holding(s)) && TermMeans(t, Holding(s + {c}))
  }

  lemma {:induction false} TermEssential(t: Term, c: Condition) returns (s: set<Condition>)
    requires TermDistinct(t) && c in TermConditions(t)
    ensures TermDecides(c, s, t)
    decreases t, 0
  {
    match t
    case Single(_) => s := {};
    case Paren(g) => s := Essential(g, c);
  }

  lemma {:induction false} Essential(g: Group, c: Condition) returns (s: set<Condition>)
    requires Distinct(g) && c in Conditions(g)
    ensures Decides(c, s, g)
    decreases g, 2
  {
    match g
    case Last(t) =>
      s := TermEssential(t, c);
      assert Conditions(g) == TermConditions(t);
      MeansLast(t, Holding(s));
      MeansLast(t, Holding(s + {c}));
    case Chain(t, isOr, rest) =>
      if c in TermConditions(t) {
        var inT := TermEssential(t, c);
        s := inT + if isOr then {} else Conditions(Head(rest));
        EssentialFirst(t, isOr, rest, c, inT, s);
      } else {
        var inRest := Essential(rest, c);
        s := inRest + if !isOr && c in Conditions(Head(rest)) then TermConditions(t) else {};
        EssentialRest(t, isOr, rest, c, inRest, s);
      }
  }

  lemma EssentialFirst(t: Term, isOr: bool, rest: Group, c: Condition, inT: set<Condition>, s: set<Condition>)
    requires Distinct(Chain(t, isOr, rest)) && c in TermConditions(t) && TermDecides(c, inT, t)
    requires s == inT + if isOr then {} else Conditions(Head(rest))
    ensures Decides(c, s, Chain(t, isOr, rest))
  {
    hide Means, TermMeans, TermConditions, Conditions;
    ConditionsOfChain(t, isOr, rest);
    HeadTailConditions(rest);
    ChainSplit(t, isOr, rest, s);
    ChainSplit(t, isOr, rest, s + {c});
    SameIn(s, inT, TermConditions(t), c);
    TermLocal(t, s, inT);
    TermLocal(t, s + {c}, inT + {c});
    AllOrNone(Head(rest), s + {c});
    AllOrNone(rest, s);
    if Tail(rest).Some? {
      AllOrNone(Tail(rest).value, s);
    }
  }

  lemma EssentialRest(t: Term, isOr: bool, rest: Group, c: Condition, inRest: set<Condition>, s: set<Condition>)
    requires Distinct(Chain(t, isOr, rest)) && c in Conditions(rest) && Decides(c, inRest, rest)
    requires s == inRest + if !isOr && c in Conditions(Head(rest)) then TermConditions(t) else {}
    ensures Decides(c, s, Chain(t, isOr, rest))
  {
    hide Means, TermMeans, TermConditions, Conditions;
    ConditionsOfChain(t, isOr, rest);
    HeadTailConditions(rest);
    ChainSplit(t, isOr, rest, s);
    ChainSplit(t, isOr, rest, s + {c});
    SameIn(s, inRest, Conditions(rest), c);
    Local(rest, s, inRest);
    Local(rest, s + {c}, inRest + {c});
    HeadMeans(rest, s);
    HeadMeans(rest, s + {c});
    TermAll(t, s);
    TermAll(t, s + {c});
    assert !Means(rest, Holding(s)) && Means(rest, Holding(s + {c}));
    if isOr {
      assert TermConditions(t) !! s + {c};
    } else if c in Conditions(Head(rest)) {
      assert TermConditions(t) <= s;
    } else {
      Local(Head(rest), s, s + {c});
    }
  }

  lemma ConditionsOfChain(t: Term, isOr: bool, rest: Group)
    ensures Conditions(Chain(t, isOr, rest)) == TermConditions(t) + Conditions(rest)
  {}

  lemma SameIn(s: set<Condition>, u: set<Condition>, a: set<Condition>, c: Condition)
    requires u <= a && u <= s && s - u !! a
    ensures s * a == u * a && (s + {c}) * a == (u + {c}) * a
  {}

  lemma AllOrNone(g: Group, s: set<Condition>)
    ensures Conditions(g) <= s ==> Means(g, Holding(s))
    ensures Conditions(g) !! s ==> !Means(g, Holding(s))
  {
    GroupAll(true, g, s);
  }

  lemma Local(g: Group, s: set<Condition>, u: set<Condition>)
    requires s * Conditions(g) == u * Conditions(g)
    ensures Means(g, Holding(s)) == Means(g, Holding(u))
  {
    GroupLocal(true, g, s, u);
  }

  lemma HeadMeans(g: Group, s: set<Condition>)
    ensures Means(g, Holding(s)) ==
            (Means(Head(g), Holding(s)) || (Tail(g).Some? && Means(Tail(g).value, Holding(s))))
  {
    MeansHead(true, g, Holding(s));
  }

  lemma MeansLast(t: Term, cb: Callback)
    ensures Means(Last(t), cb) == TermMeans(t, cb)
  {}

  lemma {:induction false} HeadTailConditions(g: Group)
    ensures Conditions(g) == Conditions(Head(g)) + if Tail(g).Some? then Conditions(Tail(g).value) else {}
    ensures Distinct(g) && Tail(g).Some? ==> Conditions(Head(g)) !! Conditions(Tail(g).value)
  {
    match g
    case Last(_) =>
    case Chain(_, isOr, rest) =>
      if !isOr {
        HeadTailConditions(rest);
      }
  }

  lemma {:induction false} HeadNoOr(g: Group)
    ensures NoOr(Head(g))
  {
    match g
    case Last(_) =>
    case Chain(_, isOr, rest) =>
      if !isOr {
        HeadNoOr(rest);
      }
  }

  /** The meaning of a chain by its first term and the parts of the rest. */
  lemma ChainSplit(t: Term, isOr: bool, rest: Group, s: set<Condition>)
    ensures var cb := Holding(s);
            Means(Chain(t, isOr, rest), cb) ==
            (if isOr then TermMeans(t, cb) || Means(rest, cb)
             else (TermMeans(t, cb) && Means(Head(rest), cb)) || (Tail(rest).Some? && Means(Tail(rest).value, cb)))
  {
    HeadNoOr(rest);
    ChainMeans(t, isOr, rest, Holding(s));
    MeansHead(true, rest, Holding(s));
  }
}
