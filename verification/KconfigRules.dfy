/** What a solution gives a symbol, rule by rule, and which values a user can choose
    (opensbi-1.2/scripts/Kconfiglib/kconfiglib.py, for symbols outside choices). */
module KconfigRules {
  import opened Common
  import opened KconfigExpr
  import opened KconfigCache

  // ---------------------------------------------------------------- expressions

  /** Conjunction and disjunction are the bounds of their operands, negation swaps n and y and keeps
      m, and De Morgan's law holds. */
  lemma LogicLaws(l: Expr, r: Expr, env: nat -> Tri)
    ensures var lo, hi, x, y := Value(And(l, r), env), Value(Or(l, r), env), Value(l, env), Value(r, env);
      lo <= x <= hi && lo <= y <= hi && ((lo == x && hi == y) || (lo == y && hi == x))
    ensures Value(Not(l), env) + Value(l, env) == 2
    ensures Value(Not(And(l, r)), env) == Value(Or(Not(l), Not(r)), env)
  {
  }

  /** Of two items exactly one of less, equal and greater holds; the other relations are their
      complements. */
  lemma RelationLaws(a: Item, b: Item, env: nat -> Tri)
    ensures var less, same, more := Value(Rel(Less, a, b), env), Value(Rel(Equal, a, b), env),
                                    Value(Rel(Greater, a, b), env);
      && less + same + more == 2 && less != 1 && same != 1
      && (less == 2 <==> Value(Leaf(a), env) < Value(Leaf(b), env))
      && (same == 2 <==> Value(Leaf(a), env) == Value(Leaf(b), env))
      && Value(Rel(GreaterEqual, a, b), env) == 2 - less
      && Value(Rel(Unequal, a, b), env) == 2 - same
      && Value(Rel(LessEqual, a, b), env) == 2 - more
  {
  }

  // ---------------------------------------------------------------- visibility

  /** A tristate symbol while MODULES is not n. */
  ghost predicate Threefold(c: Config, s: nat, env: nat -> Tri)
    requires s < |c.syms|
  {
    c.syms[s].kind == Tristate && env(c.modules) > 0
  }

  /** The visibility is the highest of the prompt conditions, with m read as y for what has no m. */
  ghost predicate Shown(c: Config, s: nat, env: nat -> Tri, vis: Tri)
    requires s < |c.syms|
  {
    var ps := c.syms[s].prompts;
    && (forall i: nat | i < |ps| :: Value(ps[i], env) <= vis)
    && (vis > 0 ==> exists i: nat :: i < |ps| && Reason(c, s, env, vis, ps[i]))
    && (vis == 1 ==> Threefold(c, s, env))
  }

  ghost predicate Reason(c: Config, s: nat, env: nat -> Tri, vis: Tri, prompt: Expr)
    requires s < |c.syms|
  {
    Value(prompt, env) == vis || (vis == 2 && Value(prompt, env) == 1 && !Threefold(c, s, env))
  }

  lemma {:induction false} PromptHighest(ps: seq<Expr>, env: nat -> Tri) returns (i: nat)
    ensures forall j: nat | j < |ps| :: Value(ps[j], env) <= PromptValue(ps, env)
    ensures PromptValue(ps, env) > 0 ==> i < |ps| && Value(ps[i], env) == PromptValue(ps, env)
  {
    i := 0;
    if ps != [] {
      var k := PromptHighest(ps[1..], env);
      assert forall j: nat | 0 < j < |ps| :: ps[j] == ps[1..][j - 1];
      if Value(ps[0], env) < PromptValue(ps[1..], env) {
        i := k + 1;
      }
    }
  }

  lemma VisibilityRules(c: Config, s: nat, env: nat -> Tri)
    requires s < |c.syms|
    ensures Shown(c, s, env, VisibleIn(c, s, env))
  {
    var ps := c.syms[s].prompts;
    var i := PromptHighest(ps, env);
    if VisibleIn(c, s, env) > 0 {
      assert Reason(c, s, env, VisibleIn(c, s, env), ps[i]);
    }
  }

  /** The rule leaves no choice. */
  lemma ShownUnique(c: Config, s: nat, env: nat -> Tri, a: Tri, b: Tri)
    requires s < |c.syms| && Shown(c, s, env, a) && Shown(c, s, env, b)
    ensures a == b
  {
    if a > 0 {
      var i: nat :| i < |c.syms[s].prompts| && Reason(c, s, env, a, c.syms[s].prompts[i]);
    }
    if b > 0 {
      var i: nat :| i < |c.syms[s].prompts| && Reason(c, s, env, b, c.syms[s].prompts[i]);
    }
  }

  // ---------------------------------------------------------------- values

  /** Default i is the one that counts, and gives w: its condition is the first that is not n. */
  ghost predicate Counts(ds: seq<Default>, env: nat -> Tri, i: nat, w: Tri) {
    && i < |ds| && Value(ds[i].cond, env) > 0
    && (forall j: nat | j < i :: Value(ds[j].cond, env) == 0)
    && w <= Value(ds[i].value, env) && w <= Value(ds[i].cond, env)
    && (w == Value(ds[i].value, env) || w == Value(ds[i].cond, env))
  }

  ghost predicate ByDefault(ds: seq<Default>, env: nat -> Tri, w: Tri) {
    || (w == 0 && forall j: nat | j < |ds| :: Value(ds[j].cond, env) == 0)
    || exists i: nat :: Counts(ds, env, i, w)
  }

  predicate Higher(w: Tri, a: Tri, b: Tri) { w >= a && w >= b && (w == a || w == b) }

  predicate Lower(w: Tri, a: Tri, b: Tri) { w <= a && w <= b && (w == a || w == b) }

  /** What stands before selects are looked at: the user's wish up to the visibility, if the symbol
      is visible and the user has one; otherwise the default, raised to what implies the symbol if
      its own dependencies are met. */
  ghost predicate Wished(c: Config, s: nat, user: Option<Tri>, env: nat -> Tri, vis: Tri, w: Tri)
    requires s < |c.syms|
  {
    var d := c.syms[s];
    if user.Some? && vis > 0 then Lower(w, user.value, vis)
    else if Value(d.directDep, env) == 0 then ByDefault(d.defaults, env, w)
    else exists dv: Tri :: ByDefault(d.defaults, env, dv) && Higher(w, dv, Value(d.weakRevDep, env))
  }

  /** Among n, m and y, m only stands where there is an m and no y implies the symbol. */
  ghost function Settled(c: Config, s: nat, env: nat -> Tri, r: Tri): Tri
    requires s < |c.syms|
  {
    if r == 1 && !(Threefold(c, s, env) && Value(c.syms[s].weakRevDep, env) < 2) then 2 else r
  }

  /** The rule for the value v of a symbol: what was wished, raised to what selects it. An int, hex or
      string counts as n. */
  ghost predicate Obeys(c: Config, s: nat, user: Option<Tri>, env: nat -> Tri, v: Tri)
    requires s < |c.syms|
  {
    if c.syms[s].kind == Other then v == 0
    else exists vis: Tri, w: Tri, r: Tri :: Derived(c, s, user, env, vis, w, r) && v == Settled(c, s, env, r)
  }

  ghost predicate Derived(c: Config, s: nat, user: Option<Tri>, env: nat -> Tri, vis: Tri, w: Tri, r: Tri)
    requires s < |c.syms|
  {
    && Shown(c, s, env, vis) && Wished(c, s, user, env, vis, w)
    && Higher(r, w, Value(c.syms[s].revDep, env))
  }

  lemma {:induction false} DefaultRule(ds: seq<Default>, env: nat -> Tri)
    ensures ByDefault(ds, env, DefaultValue(ds, env))
  {
    if ds != [] {
      var v := DefaultValue(ds, env);
      if Value(ds[0].cond, env) > 0 {
        assert Counts(ds, env, 0, v);
      } else {
        DefaultRule(ds[1..], env);
        assert forall j: nat | 0 < j < |ds| :: ds[j] == ds[1..][j - 1];
        if i: nat :| Counts(ds[1..], env, i, v) {
          assert Counts(ds, env, i + 1, v);
        }
      }
    }
  }

  lemma DefaultUnique(ds: seq<Default>, env: nat -> Tri, a: Tri, b: Tri)
    requires ByDefault(ds, env, a) && ByDefault(ds, env, b)
    ensures a == b
  {
    if i: nat :| Counts(ds, env, i, a) {
      if j: nat :| Counts(ds, env, j, b) {
        assert i == j;
      }
    }
  }

  /** Every value of a solution obeys the rule ... */
  lemma ValueRules(c: Config, user: User, env: nat -> Tri, s: nat)
    requires |user| == |c.syms| && Solves(c, user, env) && s < |c.syms|
    ensures Obeys(c, s, user[s], env, env(s))
  {
    var d := c.syms[s];
    assert env(s) == TriIn(c, s, user[s], env);
    if !d.kind.Other? {
      var vis, dv, weak, direct := VisibleIn(c, s, env), DefaultValue(d.defaults, env), Value(d.weakRevDep, env),
                                   Value(d.directDep, env);
      VisibilityRules(c, s, env);
      DefaultRule(d.defaults, env);
      hide VisibleIn, DefaultValue, Shown, ByDefault, Value, Solves;
      var w := if vis != 0 && user[s].Some? then Min(user[s].value, vis)
      else if weak != 0 && direct != 0 then Max(weak, dv) else dv;
      assert Higher(Max(weak, dv), dv, weak);
      assert Wished(c, s, user[s], env, vis, w);
      assert Derived(c, s, user[s], env, vis, w, Max(Value(d.revDep, env), w));
    }
  }

  /** ... and the rule leaves no choice. */
  lemma ObeysUnique(c: Config, s: nat, user: Option<Tri>, env: nat -> Tri, a: Tri, b: Tri)
    requires s < |c.syms| && Obeys(c, s, user, env, a) && Obeys(c, s, user, env, b)
    ensures a == b
  {
    if c.syms[s].kind != Other {
      var vis1, w1, r1 :| Derived(c, s, user, env, vis1, w1, r1) && a == Settled(c, s, env, r1);
      var vis2, w2, r2 :| Derived(c, s, user, env, vis2, w2, r2) && b == Settled(c, s, env, r2);
      ShownUnique(c, s, env, vis1, vis2);
      WishedUnique(c, s, user, env, vis1, w1, w2);
    }
  }

  lemma WishedUnique(c: Config, s: nat, user: Option<Tri>, env: nat -> Tri, vis: Tri, a: Tri, b: Tri)
    requires s < |c.syms| && Wished(c, s, user, env, vis, a) && Wished(c, s, user, env, vis, b)
    ensures a == b
  {
    hide ByDefault, Value;
    var d := c.syms[s];
    if !(user.Some? && vis > 0) {
      if Value(d.directDep, env) == 0 {
        DefaultUnique(d.defaults, env, a, b);
      } else {
        var x: Tri :| ByDefault(d.defaults, env, x) && Higher(a, x, Value(d.weakRevDep, env));
        var y: Tri :| ByDefault(d.defaults, env, y) && Higher(b, y, Value(d.weakRevDep, env));
        DefaultUnique(d.defaults, env, x, y);
      }
    }
  }

  /** A symbol is at least what selects it, and a bool is never m. */
  lemma SelectFacts(c: Config, user: User, env: nat -> Tri, s: nat)
    requires |user| == |c.syms| && Solves(c, user, env) && s < |c.syms|
    ensures !c.syms[s].kind.Other? ==> env(s) >= Value(c.syms[s].revDep, env)
    ensures env(s) == 1 ==> c.syms[s].kind.Tristate? && env(c.modules) != 0
  {
    ValueRules(c, user, env, s);
    hide Shown, Wished, Solves, Value;
  }

  /** Without selects, the user's wish for a visible symbol holds up to the visibility; only an m may
      become y. */
  lemma WishFacts(c: Config, user: User, env: nat -> Tri, s: nat, vis: Tri)
    requires |user| == |c.syms| && Solves(c, user, env) && s < |c.syms| && !c.syms[s].kind.Other?
    requires Shown(c, s, env, vis) && vis > 0 && user[s].Some? && Value(c.syms[s].revDep, env) == 0
    ensures var lo := if user[s].value <= vis then user[s].value else vis;
      env(s) == lo || (lo == 1 && env(s) == 2 && (!Threefold(c, s, env) || Value(c.syms[s].weakRevDep, env) == 2))
  {
    ValueRules(c, user, env, s);
    var vis1, w, r :| Derived(c, s, user[s], env, vis1, w, r) && env(s) == Settled(c, s, env, r);
    ShownUnique(c, s, env, vis, vis1);
  }

  /** Without a wish that counts, selects and implies, the first default whose condition is not n
      gives the value, cut to that condition; without such a default it is n. */
  lemma DefaultFacts(c: Config, user: User, env: nat -> Tri, s: nat, i: nat)
    requires |user| == |c.syms| && Solves(c, user, env) && s < |c.syms| && !c.syms[s].kind.Other?
    requires user[s].None? || Shown(c, s, env, 0)
    requires Value(c.syms[s].revDep, env) == 0 && Value(c.syms[s].weakRevDep, env) == 0
    requires i <= |c.syms[s].defaults| && forall j: nat | j < i :: Value(c.syms[s].defaults[j].cond, env) == 0
    ensures i == |c.syms[s].defaults| ==> env(s) == 0
    ensures i < |c.syms[s].defaults| && Value(c.syms[s].defaults[i].cond, env) != 0 ==>
      var x, y := Value(c.syms[s].defaults[i].value, env), Value(c.syms[s].defaults[i].cond, env);
      env(s) == Settled(c, s, env, if x <= y then x else y)
  {
    ValueRules(c, user, env, s);
    var vis, w, r :| Derived(c, s, user[s], env, vis, w, r) && env(s) == Settled(c, s, env, r);
    if Shown(c, s, env, 0) {
      ShownUnique(c, s, env, vis, 0);
    }
    assert ByDefault(c.syms[s].defaults, env, w);
    hide Shown, Solves, Value;
  }

  // ---------------------------------------------------------------- choosing a value

  /** A user value touches no symbol that ranks below its own. */
  lemma {:induction false} LowerUntouched(c: Config, rank: seq<nat>, user: User, s: nat, u: Option<Tri>, a: nat -> Tri,
                                          b: nat -> Tri, x: nat)
    requires Acyclic(c, rank) && |user| == |c.syms| && s < |c.syms| && x < |c.syms| && rank[x] < rank[s]
    requires Solves(c, user, a) && Solves(c, user[s := u], b)
    ensures a(x) == b(x)
    decreases rank[x]
  {
    hide TriIn, Depends;
    forall y | y in Sources(c, x)
      ensures a(y) == b(y)
    {
      LowerUntouched(c, rank, user, s, u, a, b, y);
    }
    TriLocal(c, x, user[x], a, b);
  }

  /** So the value a symbol has once its user value is set obeys the rule with all else as before. */
  lemma AfterSet(c: Config, rank: seq<nat>, user: User, s: nat, u: Option<Tri>, env: nat -> Tri, env': nat -> Tri)
    requires Acyclic(c, rank) && |user| == |c.syms| && s < |c.syms|
    requires Solves(c, user, env) && Solves(c, user[s := u], env')
    ensures env'(s) == TriIn(c, s, u, env)
  {
    hide TriIn, Depends;
    forall y | y in Sources(c, s)
      ensures env(y) == env'(y)
    {
      LowerUntouched(c, rank, user, s, u, env, env', y);
    }
    TriLocal(c, s, u, env, env');
  }

  /** _assignable: the values on offer, for a visibility, the values of what selects and implies the
      symbol, and whether it has an m. */
  function Offered(threefold: bool, vis: Tri, rev: Tri, weak: Tri): seq<Tri> {
    if vis == 0 then []
    else if vis == 2 then
      if rev == 0 then (if !threefold || weak == 2 then [0, 2] else [0, 1, 2])
      else if rev == 2 then [2]
      else if !threefold || weak == 2 then [2] else [1, 2]
    else if rev == 0 then (if weak != 2 then [0, 1] else [0, 2])
    else if rev == 2 then [2]
    else [1]
  }

  ghost function OfferedIn(c: Config, s: nat, env: nat -> Tri): seq<Tri>
    requires s < |c.syms|
  {
    if c.syms[s].kind.Other? then []
    else Offered(IsTristate(c, s, env), VisibleIn(c, s, env), Value(c.syms[s].revDep, env),
                 Value(c.syms[s].weakRevDep, env))
  }

  /** Selected by m and implied by y while visible up to m. */
  ghost predicate Torn(c: Config, s: nat, env: nat -> Tri)
    requires s < |c.syms|
  {
    Shown(c, s, env, 1) && Value(c.syms[s].revDep, env) == 1 && Value(c.syms[s].weakRevDep, env) == 2
  }

  /** A value is on offer exactly when setting it makes it the value of the symbol, for every visible
      symbol except those selected by m and implied by y at visibility m: they are offered m and take
      y. An invisible symbol is offered nothing, and setting it changes nothing. */
  lemma OfferedExactly(c: Config, rank: seq<nat>, user: User, s: nat, u: Tri, env: nat -> Tri, env': nat -> Tri)
    requires Acyclic(c, rank) && |user| == |c.syms| && s < |c.syms| && !c.syms[s].kind.Other?
    requires Solves(c, user, env) && Solves(c, user[s := Some(u)], env')
    ensures Shown(c, s, env, 0) ==> OfferedIn(c, s, env) == [] && env'(s) == env(s)
    ensures !Shown(c, s, env, 0) && !Torn(c, s, env) ==> (u in OfferedIn(c, s, env) <==> env'(s) == u)
    ensures Torn(c, s, env) ==> OfferedIn(c, s, env) == [1] && env'(s) == 2
  {
    AfterSet(c, rank, user, s, Some(u), env, env');
    VisibilityRules(c, s, env);
    var vis := VisibleIn(c, s, env);
    if Shown(c, s, env, 0) {
      ShownUnique(c, s, env, vis, 0);
    }
    if Shown(c, s, env, 1) {
      ShownUnique(c, s, env, vis, 1);
    }
    assert env(s) == TriIn(c, s, user[s], env);
    hide Acyclic, Solves, DefaultValue, Value;
    OfferedCases(c, s, u, env);
  }

  lemma OfferedCases(c: Config, s: nat, u: Tri, env: nat -> Tri)
    requires s < |c.syms| && !c.syms[s].kind.Other?
    requires VisibleIn(c, s, env) == 1 ==> IsTristate(c, s, env)
    ensures var vis, rev, weak := VisibleIn(c, s, env), Value(c.syms[s].revDep, env), Value(c.syms[s].weakRevDep, env);
      vis != 0 && !(vis == 1 && rev == 1 && weak == 2) ==>
        (u in OfferedIn(c, s, env) <==> TriIn(c, s, Some(u), env) == u)
  {
    hide Value, VisibleIn, DefaultValue, IsTristate;
  }

  /** A value within the visibility and not below what selects the symbol is taken, m with the usual
      exception. */
  lemma SetTakes(c: Config, rank: seq<nat>, user: User, s: nat, u: Tri, env: nat -> Tri, env': nat -> Tri, vis: Tri)
    requires Acyclic(c, rank) && |user| == |c.syms| && s < |c.syms| && !c.syms[s].kind.Other?
    requires Solves(c, user, env) && Solves(c, user[s := Some(u)], env')
    requires Shown(c, s, env, vis) && 0 < vis && Value(c.syms[s].revDep, env) <= u <= vis
    ensures env'(s) == Settled(c, s, env, u)
  {
    AfterSet(c, rank, user, s, Some(u), env, env');
    VisibilityRules(c, s, env);
    ShownUnique(c, s, env, vis, VisibleIn(c, s, env));
    hide Acyclic, Solves, DefaultValue, Value, VisibleIn;
  }

  /** The exception happens: MODULES is y, and a tristate symbol with a prompt of m is selected by m
      and implied by y. It is offered m; set to m, it is y. */
  lemma TornHappens() returns (c: Config, rank: seq<nat>, user: User, env: nat -> Tri, env': nat -> Tri)
    ensures Acyclic(c, rank) && |user| == |c.syms| == 2 && !c.syms[1].kind.Other?
    ensures Solves(c, user, env) && Solves(c, user[1 := Some(1)], env')
    ensures !Shown(c, 1, env, 0) && OfferedIn(c, 1, env) == [1] && env'(1) == 2
  {
    var n, m, y := Leaf(Constant(0)), Leaf(Constant(1)), Leaf(Constant(2));
    var ds := [Default(y, y)];
    c := Config([Definition(Bool, [], ds, n, n, y), Definition(Tristate, [m], [], m, y, y)], 0);
    rank, user := [0, 1], [None, None];
    env, env' := (x: nat) => 2, (x: nat) => 2;
    assert [m][1..] == [] && ds[1..] == [];
    assert Acyclic(c, rank) by {
      assert PromptSymbols([m]) == {} && DefaultSymbols(ds) == Symbols(y) + Symbols(y) + DefaultSymbols([]);
      assert Depends(c.syms[0]) == {} && Depends(c.syms[1]) == {};
    }
    hide Acyclic, Depends;
    assert PromptValue([m], env) == 1 && DefaultValue(ds, env) == 2;
    assert VisibleIn(c, 1, env) == 1;
    VisibilityRules(c, 1, env);
    assert !Shown(c, 1, env, 0) by { assert Value([m][0], env) == 1; }
  }

  /** Evaluation over a coherent cache gives the value in the solution. */
  lemma CachedRight(c: Config, rank: seq<nat>, user: User, vis: Cache, tri: Cache, env: nat -> Tri, e: Expr)
    requires Acyclic(c, rank) && Coherent(c, user, vis, tri) && Solves(c, user, env)
    requires Within(Symbols(e), |c.syms|) && Cached(e, tri).Some?
    ensures Cached(e, tri) == Some(Value(e, env))
  {
    var full := Full(|c.syms|, env);
    hide Acyclic, Coherent, Solves, Value;
    forall x | x in Symbols(e) && x < |tri| && tri[x].Some?
      ensures full[x] == tri[x]
    {
      CacheIsRight(c, rank, user, vis, tri, env, x);
    }
    CachedCarries(e, tri, full);
    CachedFull(e, |c.syms|, env);
  }
}
