/** Symbol values with their caches and the invalidation that stops at uncached items
    (opensbi-1.2/scripts/Kconfiglib/kconfiglib.py), for symbols outside choices. */
module KconfigCache {
  import opened Common
  import opened KconfigExpr

  /** Bool, tristate, or one of the types that count as n in a logical context. */
  datatype Kind = Bool | Tristate | Other

  datatype Default = Default(value: Expr, cond: Expr)

  /** The static part of a symbol: one condition for each menu node that has a prompt, the
      defaults in order, and the three dependency expressions. */
  datatype Definition = Definition(kind: Kind, prompts: seq<Expr>, defaults: seq<Default>,
                                   revDep: Expr, weakRevDep: Expr, directDep: Expr)

  datatype Config = Config(syms: seq<Definition>, modules: nat)

  // ---------------------------------------------------------------- dependencies

  ghost function DefaultSymbols(ds: seq<Default>): set<nat> {
    if ds == [] then {} else Symbols(ds[0].value) + Symbols(ds[0].cond) + DefaultSymbols(ds[1..])
  }

  ghost function PromptSymbols(ps: seq<Expr>): set<nat> {
    if ps == [] then {} else Symbols(ps[0]) + PromptSymbols(ps[1..])
  }

  /** The symbols a symbol immediately depends on. */
  ghost function Depends(d: Definition): set<nat> {
    PromptSymbols(d.prompts) + DefaultSymbols(d.defaults) + Symbols(d.revDep) + Symbols(d.weakRevDep)
      + Symbols(d.directDep)
  }

  predicate Logical(c: Config, i: Item) { i.Symbol? ==> i.id < |c.syms| && !c.syms[i.id].kind.Other? }

  /** Relations compare bool and tristate symbols and n, m and y; those on other symbols compare their
      text, which is not modelled. */
  predicate Comparable(c: Config, e: Expr) {
    match e
    case Leaf(_) => true
    case And(l, r) => Comparable(c, l) && Comparable(c, r)
    case Or(l, r) => Comparable(c, l) && Comparable(c, r)
    case Not(a) => Comparable(c, a)
    case Rel(_, a, b) => Logical(c, a) && Logical(c, b)
  }

  predicate AllComparable(c: Config, d: Definition) {
    && (forall i | 0 <= i < |d.prompts| :: Comparable(c, d.prompts[i]))
    && (forall i | 0 <= i < |d.defaults| :: Comparable(c, d.defaults[i].value) && Comparable(c, d.defaults[i].cond))
    && Comparable(c, d.revDep) && Comparable(c, d.weakRevDep) && Comparable(c, d.directDep)
  }

  /** Dependencies are acyclic, and so is the hidden one of every tristate symbol on MODULES:
      `rank` goes down along each. */
  ghost predicate Acyclic(c: Config, rank: seq<nat>) {
    && c.modules < |c.syms| && |rank| == |c.syms|
    && forall s: nat | s < |c.syms| ::
         && (forall x | x in Depends(c.syms[s]) :: x < |c.syms| && rank[x] < rank[s])
         && (c.syms[s].kind.Tristate? ==> rank[c.modules] < rank[s])
         && AllComparable(c, c.syms[s])
  }

  // ---------------------------------------------------------------- values from scratch

  type User = seq<Option<Tri>>

  function PromptValue(ps: seq<Expr>, env: nat -> Tri): Tri {
    if ps == [] then 0 else Max(Value(ps[0], env), PromptValue(ps[1..], env))
  }

  /** The first default whose condition is not n, cut down to that condition. */
  function DefaultValue(ds: seq<Default>, env: nat -> Tri): Tri {
    if ds == [] then 0
    else if Value(ds[0].cond, env) != 0 then Min(Value(ds[0].value, env), Value(ds[0].cond, env))
    else DefaultValue(ds[1..], env)
  }

  /** A tristate symbol behaves like a bool while MODULES is n. */
  function IsTristate(c: Config, s: nat, env: nat -> Tri): bool
    requires s < |c.syms|
  {
    c.syms[s].kind.Tristate? && env(c.modules) != 0
  }

  function VisibleIn(c: Config, s: nat, env: nat -> Tri): Tri
    requires s < |c.syms|
  {
    var v := PromptValue(c.syms[s].prompts, env);
    if v == 1 && !IsTristate(c, s, env) then 2 else v
  }

  function TriIn(c: Config, s: nat, user: Option<Tri>, env: nat -> Tri): Tri
    requires s < |c.syms|
  {
    var d := c.syms[s];
    if d.kind.Other? then 0
    else
      var vis := VisibleIn(c, s, env);
      var weak := Value(d.weakRevDep, env);
      var base :=
        if vis != 0 && user.Some? then Min(user.value, vis)
        else if weak != 0 && Value(d.directDep, env) != 0 then Max(weak, DefaultValue(d.defaults, env))
        else DefaultValue(d.defaults, env);
      var raised := Max(Value(d.revDep, env), base);
      if raised == 1 && (!IsTristate(c, s, env) || weak == 2) then 2 else raised
  }

  /** `env` gives every symbol the value its definition and the user values demand. */
  ghost predicate Solves(c: Config, user: User, env: nat -> Tri)
    requires |user| == |c.syms|
  {
    forall s: nat | s < |c.syms| :: env(s) == TriIn(c, s, user[s], env)
  }

  // ---------------------------------------------------------------- evaluation over a cache

  type Cache = seq<Option<Tri>>

  function ItemCached(i: Item, t: Cache): Option<Tri> {
    match i
    case Symbol(s) => if s < |t| then t[s] else None
    case Constant(v) => Some(v)
  }

  /** expr_value, short-circuiting, when values come from the cache; None when it would have to
      read a symbol that is not cached. */
  ghost function Cached(e: Expr, t: Cache): Option<Tri> {
    match e
    case Leaf(i) => ItemCached(i, t)
    case And(l, r) =>
      var v := Cached(l, t);
      if v == None || v == Some(0) then v
      else if Cached(r, t) == None then None else Some(Min(v.value, Cached(r, t).value))
    case Or(l, r) =>
      var v := Cached(l, t);
      if v == None || v == Some(2) then v
      else if Cached(r, t) == None then None else Some(Max(v.value, Cached(r, t).value))
    case Not(a) => if Cached(a, t) == None then None else Some(2 - Cached(a, t).value)
    case Rel(op, a, b) =>
      if ItemCached(a, t) == None || ItemCached(b, t) == None then None
      else Some(Compare(op, ItemCached(a, t).value, ItemCached(b, t).value))
  }

  ghost function PromptCached(ps: seq<Expr>, t: Cache): Option<Tri> {
    if ps == [] then Some(0)
    else if Cached(ps[0], t) == None || PromptCached(ps[1..], t) == None then None
    else Some(Max(Cached(ps[0], t).value, PromptCached(ps[1..], t).value))
  }

  ghost function DefaultCached(ds: seq<Default>, t: Cache): Option<Tri> {
    if ds == [] then Some(0)
    else
      var v := Cached(ds[0].cond, t);
      if v == None then None
      else if v == Some(0) then DefaultCached(ds[1..], t)
      else if Cached(ds[0].value, t) == None then None
      else Some(Min(Cached(ds[0].value, t).value, v.value))
  }

  ghost function TristateCached(c: Config, s: nat, t: Cache): Option<bool>
    requires s < |c.syms|
  {
    if !c.syms[s].kind.Tristate? then Some(false)
    else match ItemCached(Symbol(c.modules), t)
      case None => None
      case Some(m) => Some(m != 0)
  }

  ghost function VisCached(c: Config, s: nat, t: Cache): Option<Tri>
    requires s < |c.syms|
  {
    var v := PromptCached(c.syms[s].prompts, t);
    if v != Some(1) then v
    else match TristateCached(c, s, t)
      case None => None
      case Some(b) => Some(if b then 1 else 2)
  }

  /** The value before reverse dependencies. */
  ghost function BaseCached(d: Definition, user: Option<Tri>, vis: Tri, t: Cache): Option<Tri> {
    if vis != 0 && user.Some? then Some(Min(user.value, vis))
    else
      var dv, weak := DefaultCached(d.defaults, t), Cached(d.weakRevDep, t);
      if dv == None || weak == None then None
      else if weak == Some(0) then dv
      else match Cached(d.directDep, t)
        case None => None
        case Some(direct) => if direct != 0 then Some(Max(weak.value, dv.value)) else dv
  }

  /** m becomes y for what is not a tristate, or is implied by y. */
  ghost function PromotedCached(c: Config, s: nat, v: Tri, t: Cache): Option<Tri>
    requires s < |c.syms|
  {
    if v != 1 then Some(v)
    else match TristateCached(c, s, t)
      case None => None
      case Some(false) => Some(2)
      case Some(true) =>
        var weak := Cached(c.syms[s].weakRevDep, t);
        if weak == None then None else Some(if weak == Some(2) then 2 else 1)
  }

  ghost function TriCached(c: Config, s: nat, user: Option<Tri>, vis: Option<Tri>, t: Cache): Option<Tri>
    requires s < |c.syms|
  {
    var d := c.syms[s];
    if d.kind.Other? then Some(0)
    else if vis == None then None
    else
      var base, rev := BaseCached(d, user, vis.value, t), Cached(d.revDep, t);
      if base == None || rev == None then None else PromotedCached(c, s, Max(rev.value, base.value), t)
  }

  // ---------------------------------------------------------------- what a cached evaluation depends on

  /** Nothing the evaluation of a symbol out of `xs` found in t is different in t'. */
  ghost predicate Carries(t: Cache, t': Cache, xs: set<nat>) {
    |t| == |t'| && forall x | x in xs && x < |t| && t[x].Some? :: t'[x] == t[x]
  }

  lemma {:induction false} CachedCarries(e: Expr, t: Cache, t': Cache)
    requires Carries(t, t', Symbols(e)) && Cached(e, t).Some?
    ensures Cached(e, t') == Cached(e, t)
  {
    match e
    case Leaf(i) =>
    case Rel(_, a, b) =>
    case Not(a) => CachedCarries(a, t, t');
    case And(l, r) =>
      CachedCarries(l, t, t');
      if Cached(r, t).Some? {
        CachedCarries(r, t, t');
      }
    case Or(l, r) =>
      CachedCarries(l, t, t');
      if Cached(r, t).Some? {
        CachedCarries(r, t, t');
      }
  }

  lemma {:induction false} PromptCarries(ps: seq<Expr>, t: Cache, t': Cache)
    requires Carries(t, t', PromptSymbols(ps)) && PromptCached(ps, t).Some?
    ensures PromptCached(ps, t') == PromptCached(ps, t)
  {
    if ps != [] {
      CachedCarries(ps[0], t, t');
      PromptCarries(ps[1..], t, t');
    }
  }

  lemma {:induction false} DefaultCarries(ds: seq<Default>, t: Cache, t': Cache)
    requires Carries(t, t', DefaultSymbols(ds)) && DefaultCached(ds, t).Some?
    ensures DefaultCached(ds, t') == DefaultCached(ds, t)
  {
    if ds != [] {
      CachedCarries(ds[0].cond, t, t');
      if Cached(ds[0].cond, t) == Some(0) {
        DefaultCarries(ds[1..], t, t');
      } else {
        CachedCarries(ds[0].value, t, t');
      }
    }
  }

  /** What the value of a symbol may hang on: its dependencies, and MODULES for a tristate. */
  ghost function Sources(c: Config, s: nat): set<nat>
    requires s < |c.syms|
  {
    Depends(c.syms[s]) + if c.syms[s].kind.Tristate? then {c.modules} else {}
  }

  lemma VisCarries(c: Config, s: nat, t: Cache, t': Cache)
    requires s < |c.syms| && Carries(t, t', Sources(c, s)) && VisCached(c, s, t).Some?
    ensures VisCached(c, s, t') == VisCached(c, s, t)
  {
    PromptCarries(c.syms[s].prompts, t, t');
  }

  lemma BaseCarries(d: Definition, user: Option<Tri>, vis: Tri, t: Cache, t': Cache)
    requires Carries(t, t', Depends(d)) && BaseCached(d, user, vis, t).Some?
    ensures BaseCached(d, user, vis, t') == BaseCached(d, user, vis, t)
  {
    if !(vis != 0 && user.Some?) {
      DefaultCarries(d.defaults, t, t');
      CachedCarries(d.weakRevDep, t, t');
      if Cached(d.directDep, t).Some? {
        CachedCarries(d.directDep, t, t');
      }
    }
  }

  lemma TriCarries(c: Config, s: nat, user: Option<Tri>, vis: Option<Tri>, t: Cache, t': Cache)
    requires s < |c.syms| && Carries(t, t', Sources(c, s)) && TriCached(c, s, user, vis, t).Some?
    ensures TriCached(c, s, user, vis, t') == TriCached(c, s, user, vis, t)
  {
    var d := c.syms[s];
    if !d.kind.Other? {
      BaseCarries(d, user, vis.value, t, t');
      CachedCarries(d.revDep, t, t');
      if Cached(d.weakRevDep, t).Some? {
        CachedCarries(d.weakRevDep, t, t');
      }
    }
  }

  // ---------------------------------------------------------------- a full cache gives the true values

  ghost function Full(n: nat, env: nat -> Tri): (t: Cache)
    ensures |t| == n && forall x: nat | x < n :: t[x] == Some(env(x))
  {
    seq(n, x requires 0 <= x < n => Some(env(x)))
  }

  ghost predicate Within(xs: set<nat>, n: nat) { forall x | x in xs :: x < n }

  lemma {:induction false} CachedFull(e: Expr, n: nat, env: nat -> Tri)
    requires Within(Symbols(e), n)
    ensures Cached(e, Full(n, env)) == Some(Value(e, env))
  {
    match e
    case Leaf(i) =>
    case Rel(_, a, b) =>
    case Not(a) => CachedFull(a, n, env);
    case And(l, r) =>
      CachedFull(l, n, env);
      CachedFull(r, n, env);
    case Or(l, r) =>
      CachedFull(l, n, env);
      CachedFull(r, n, env);
  }

  lemma {:induction false} PromptFull(ps: seq<Expr>, n: nat, env: nat -> Tri)
    requires Within(PromptSymbols(ps), n)
    ensures PromptCached(ps, Full(n, env)) == Some(PromptValue(ps, env))
  {
    if ps != [] {
      CachedFull(ps[0], n, env);
      PromptFull(ps[1..], n, env);
    }
  }

  lemma {:induction false} DefaultFull(ds: seq<Default>, n: nat, env: nat -> Tri)
    requires Within(DefaultSymbols(ds), n)
    ensures DefaultCached(ds, Full(n, env)) == Some(DefaultValue(ds, env))
  {
    if ds != [] {
      CachedFull(ds[0].cond, n, env);
      CachedFull(ds[0].value, n, env);
      DefaultFull(ds[1..], n, env);
    }
  }

  lemma TriFull(c: Config, s: nat, user: Option<Tri>, env: nat -> Tri)
    requires s < |c.syms| && c.modules < |c.syms| && Within(Depends(c.syms[s]), |c.syms|)
    ensures VisCached(c, s, Full(|c.syms|, env)) == Some(VisibleIn(c, s, env))
    ensures TriCached(c, s, user, Some(VisibleIn(c, s, env)), Full(|c.syms|, env)) == Some(TriIn(c, s, user, env))
  {
    var d, n := c.syms[s], |c.syms|;
    PromptFull(d.prompts, n, env);
    DefaultFull(d.defaults, n, env);
    CachedFull(d.weakRevDep, n, env);
    CachedFull(d.directDep, n, env);
    CachedFull(d.revDep, n, env);
  }

  // ---------------------------------------------------------------- coherence

  /** Every cached entry is what evaluating the symbol over the cache gives. */
  ghost predicate EntryOk(c: Config, user: User, vis: Cache, tri: Cache, s: nat)
    requires s < |c.syms| == |user| == |vis| == |tri|
  {
    && (vis[s].Some? ==> VisCached(c, s, tri) == vis[s])
    && (tri[s].Some? ==> TriCached(c, s, user[s], vis[s], tri) == tri[s])
  }

  ghost predicate Coherent(c: Config, user: User, vis: Cache, tri: Cache) {
    && |user| == |vis| == |tri| == |c.syms|
    && forall s: nat | s < |c.syms| :: EntryOk(c, user, vis, tri, s)
  }

  /** A coherent cache holds the values computed from scratch. */
  lemma {:induction false} CacheIsRight(c: Config, rank: seq<nat>, user: User, vis: Cache, tri: Cache, env: nat -> Tri,
                                        s: nat)
    requires Acyclic(c, rank) && Coherent(c, user, vis, tri) && Solves(c, user, env) && s < |c.syms|
    ensures tri[s].Some? ==> tri[s].value == env(s)
    ensures vis[s].Some? ==> vis[s].value == VisibleIn(c, s, env)
    decreases rank[s]
  {
    var full := Full(|c.syms|, env);
    forall x | x in Sources(c, s) && x < |tri| && tri[x].Some?
      ensures full[x] == tri[x]
    {
      CacheIsRight(c, rank, user, vis, tri, env, x);
    }
    TriFull(c, s, user[s], env);
    assert EntryOk(c, user, vis, tri, s);
    if vis[s].Some? {
      VisCarries(c, s, tri, full);
    }
    if tri[s].Some? {
      TriCarries(c, s, user[s], vis[s], tri, full);
    }
  }

  // ---------------------------------------------------------------- there is exactly one solution

  /** A value only depends on the values of its sources. */
  lemma TriLocal(c: Config, s: nat, user: Option<Tri>, a: nat -> Tri, b: nat -> Tri)
    requires s < |c.syms| && c.modules < |c.syms| && Within(Depends(c.syms[s]), |c.syms|)
    requires forall x | x in Sources(c, s) :: a(x) == b(x)
    ensures TriIn(c, s, user, a) == TriIn(c, s, user, b)
  {
    var n := |c.syms|;
    var fa, fb := Full(n, a), Full(n, b);
    TriFull(c, s, user, a);
    TriFull(c, s, user, b);
    hide TriIn, VisibleIn, Full, TriCached, VisCached;
    VisCarries(c, s, fa, fb);
    TriCarries(c, s, user, Some(VisibleIn(c, s, b)), fa, fb);
  }

  /** Computation from scratch, one rank after the other. */
  lemma {:induction false} Scratch(c: Config, rank: seq<nat>, user: User, r: nat) returns (env: nat -> Tri)
    requires Acyclic(c, rank) && |user| == |c.syms|
    ensures forall s: nat | s < |c.syms| && rank[s] < r :: env(s) == TriIn(c, s, user[s], env)
  {
    hide TriIn, Depends;
    if r == 0 {
      env := (x: nat) => 0;
    } else {
      var env0 := Scratch(c, rank, user, r - 1);
      env := (x: nat) => if x < |c.syms| && x < |user| && rank[x] < r then TriIn(c, x, user[x], env0) else 0;
      forall x: nat | x < |c.syms| && rank[x] < r - 1
        ensures env(x) == env0(x)
      {
      }
      forall s: nat | s < |c.syms| && rank[s] < r
        ensures env(s) == TriIn(c, s, user[s], env)
      {
        TriLocal(c, s, user[s], env0, env);
      }
    }
  }

  lemma {:induction false} RankBound(rank: seq<nat>) returns (r: nat)
    ensures forall s: nat | s < |rank| :: rank[s] < r
  {
    if rank == [] {
      r := 0;
    } else {
      r := RankBound(rank[1..]);
      assert forall s: nat | 0 < s < |rank| :: rank[s] == rank[1..][s - 1];
      if rank[0] >= r {
        r := rank[0] + 1;
      }
    }
  }

  /** An acyclic configuration has a solution ... */
  lemma SolutionExists(c: Config, rank: seq<nat>, user: User) returns (env: nat -> Tri)
    requires Acyclic(c, rank) && |user| == |c.syms|
    ensures Solves(c, user, env)
  {
    assert |rank| == |c.syms|;
    hide Acyclic, TriIn;
    var r := RankBound(rank);
    env := Scratch(c, rank, user, r);
  }

  /** ... and only one. */
  lemma {:induction false} SolutionUnique(c: Config, rank: seq<nat>, user: User, a: nat -> Tri, b: nat -> Tri, s: nat)
    requires Acyclic(c, rank) && |user| == |c.syms| && Solves(c, user, a) && Solves(c, user, b) && s < |c.syms|
    ensures a(s) == b(s)
    decreases rank[s]
  {
    hide TriIn, Depends;
    forall x | x in Sources(c, s)
      ensures a(x) == b(x)
    {
      SolutionUnique(c, rank, user, a, b, x);
    }
    TriLocal(c, s, user[s], a, b);
  }

  // ---------------------------------------------------------------- growing the cache

  ghost predicate Grown(t: Cache, t': Cache) {
    |t| == |t'| && forall x | 0 <= x < |t| && t[x].Some? :: t'[x] == t[x]
  }

  lemma AddVis(c: Config, user: User, vis: Cache, tri: Cache, s: nat, v: Tri)
    requires Coherent(c, user, vis, tri) && s < |c.syms| && VisCached(c, s, tri) == Some(v)
    ensures Coherent(c, user, vis[s := Some(v)], tri) && Grown(vis, vis[s := Some(v)])
  {
    hide VisCached, BaseCached, PromotedCached, Cached;
    var vis' := vis[s := Some(v)];
    forall z: nat | z < |c.syms|
      ensures EntryOk(c, user, vis', tri, z)
    {
      assert EntryOk(c, user, vis, tri, z);
    }
    assert EntryOk(c, user, vis, tri, s);
  }

  lemma AddTri(c: Config, user: User, vis: Cache, tri: Cache, s: nat, v: Tri)
    requires Coherent(c, user, vis, tri) && s < |c.syms| && TriCached(c, s, user[s], vis[s], tri) == Some(v)
    ensures Coherent(c, user, vis, tri[s := Some(v)]) && Grown(tri, tri[s := Some(v)])
  {
    hide VisCached, TriCached, Depends;
    var tri' := tri[s := Some(v)];
    assert EntryOk(c, user, vis, tri, s);
    forall z: nat | z < |c.syms|
      ensures EntryOk(c, user, vis, tri', z)
    {
      assert EntryOk(c, user, vis, tri, z);
      if vis[z].Some? {
        VisCarries(c, z, tri, tri');
      }
      if tri[z].Some? || z == s {
        TriCarries(c, z, user[z], vis[z], tri, tri');
      }
    }
  }

  /** An evaluation that succeeded succeeds again on a larger cache. */
  lemma CachedGrown(e: Expr, t: Cache, t': Cache)
    requires Grown(t, t') && Cached(e, t).Some?
    ensures Cached(e, t') == Cached(e, t)
  {
    CachedCarries(e, t, t');
  }

  lemma GrownTrans(a: Cache, b: Cache, d: Cache)
    requires Grown(a, b) && Grown(b, d)
    ensures Grown(a, d)
  {
  }

  lemma GrownSame(a: Cache)
    ensures Grown(a, a)
  {
  }

  lemma PromptGrown(ps: seq<Expr>, t: Cache, t': Cache)
    requires Grown(t, t') && PromptCached(ps, t).Some?
    ensures PromptCached(ps, t') == PromptCached(ps, t)
  {
    PromptCarries(ps, t, t');
  }

  lemma DefaultGrown(ds: seq<Default>, t: Cache, t': Cache)
    requires Grown(t, t') && DefaultCached(ds, t).Some?
    ensures DefaultCached(ds, t') == DefaultCached(ds, t)
  {
    DefaultCarries(ds, t, t');
  }

  lemma BaseGrown(d: Definition, user: Option<Tri>, vis: Tri, t: Cache, t': Cache)
    requires Grown(t, t') && BaseCached(d, user, vis, t).Some?
    ensures BaseCached(d, user, vis, t') == BaseCached(d, user, vis, t)
  {
    BaseCarries(d, user, vis, t, t');
  }

  lemma {:induction false} PromptSnoc(ps: seq<Expr>, e: Expr, t: Cache)
    ensures PromptCached(ps + [e], t) ==
      if PromptCached(ps, t) == None || Cached(e, t) == None then None
      else Some(Max(PromptCached(ps, t).value, Cached(e, t).value))
  {
    if ps == [] {
      assert ps + [e] == [e];
      assert [e][1..] == [];
    } else {
      assert (ps + [e])[1..] == ps[1..] + [e];
      PromptSnoc(ps[1..], e, t);
    }
  }

  lemma {:induction false} PromptPrefix(ps: seq<Expr>, i: nat)
    requires i <= |ps|
    ensures PromptSymbols(ps[..i]) <= PromptSymbols(ps)
    ensures forall j: nat | j < |ps| :: Symbols(ps[j]) <= PromptSymbols(ps)
  {
    if ps != [] {
      PromptPrefix(ps[1..], if i == 0 then 0 else i - 1);
      assert forall j: nat | 0 < j < |ps| :: ps[j] == ps[1..][j - 1];
      if i > 0 {
        assert ps[..i][1..] == ps[1..][..i - 1];
      }
    }
  }

  lemma {:induction false} DefaultMember(ds: seq<Default>, j: nat)
    requires j < |ds|
    ensures Symbols(ds[j].value) + Symbols(ds[j].cond) <= DefaultSymbols(ds)
  {
    if j > 0 {
      DefaultMember(ds[1..], j - 1);
    }
  }

  lemma {:induction false} DefaultSkip(ds: seq<Default>, i: nat, t: Cache)
    requires i <= |ds| && forall j | 0 <= j < i :: Cached(ds[j].cond, t) == Some(0)
    ensures DefaultCached(ds, t) == DefaultCached(ds[i..], t)
  {
    if i > 0 {
      assert ds[1..][i - 1..] == ds[i..];
      assert forall j | 0 <= j < i - 1 :: ds[1..][j] == ds[j + 1];
      DefaultSkip(ds[1..], i - 1, t);
    } else {
      assert ds[0..] == ds;
    }
  }

  // ---------------------------------------------------------------- shrinking the cache

  /** Entries were dropped, both values of a symbol at a time. */
  ghost predicate Dropped(vis: Cache, tri: Cache, vis': Cache, tri': Cache) {
    && |vis'| == |vis| == |tri| == |tri'|
    && forall z: nat | z < |vis| :: (vis'[z] == vis[z] && tri'[z] == tri[z]) || (vis'[z] == None && tri'[z] == None)
  }

  ghost predicate Mentions(c: Config, s: nat, y: nat) { s < |c.syms| && y in Depends(c.syms[s]) }

  /** `dependents` inverts Depends. */
  ghost predicate Inverted(c: Config, dependents: seq<set<nat>>) {
    && |dependents| == |c.syms|
    && forall y: nat, s: nat | y < |c.syms| :: s in dependents[y] <==> Mentions(c, s, y)
  }

  /** Nothing that depends on y is cached. */
  ghost predicate Clear(dependents: seq<set<nat>>, vis: Cache, y: nat)
    requires y < |dependents|
  {
    forall d | d in dependents[y] && d < |vis| :: vis[d] == None
  }

  /** The sweep from x is complete: what was dropped left no cached dependents behind, and if the
      value of MODULES was dropped everything was. */
  ghost predicate SweptFrom(c: Config, dependents: seq<set<nat>>, vis: Cache, tri: Cache, vis': Cache, tri': Cache,
                            x: nat)
    requires |dependents| == |vis| == |c.syms| && c.modules < |c.syms|
  {
    && Dropped(vis, tri, vis', tri') && x < |vis'| && vis'[x] == None && tri'[x] == None
    && (forall y: nat | y < |vis| && (y == x || vis'[y] != vis[y] || tri'[y] != tri[y]) :: Clear(dependents, vis', y))
    && (tri'[c.modules] != tri[c.modules] || vis'[c.modules] != vis[c.modules] ==>
          forall z: nat | z < |vis'| :: vis'[z] == None && tri'[z] == None)
  }

  /** After a complete sweep from the symbol whose user value changed, the cache is coherent with
      the new user values. */
  lemma SweepKeeps(c: Config, dependents: seq<set<nat>>, user: User, user': User, vis: Cache, tri: Cache, vis': Cache,
                   tri': Cache, x: nat)
    requires Coherent(c, user, vis, tri) && Inverted(c, dependents) && c.modules < |c.syms|
    requires forall s: nat | s < |c.syms| :: Within(Depends(c.syms[s]), |c.syms|)
    requires SweptFrom(c, dependents, vis, tri, vis', tri', x)
    requires |user'| == |user| && forall z: nat | z < |user| && z != x :: user'[z] == user[z]
    ensures Coherent(c, user', vis', tri')
  {
    hide VisCached, BaseCached, PromotedCached, Cached, Depends;
    forall z: nat | z < |c.syms|
      ensures EntryOk(c, user', vis', tri', z)
    {
      assert EntryOk(c, user, vis, tri, z);
      if vis'[z].Some? {
        SourcesStay(c, dependents, vis, tri, vis', tri', x, z);
        VisCarries(c, z, tri, tri');
        if tri'[z].Some? {
          TriCarries(c, z, user[z], vis[z], tri, tri');
        }
      }
    }
  }

  /** Whatever is still cached lost none of its sources. */
  lemma SourcesStay(c: Config, dependents: seq<set<nat>>, vis: Cache, tri: Cache, vis': Cache, tri': Cache, x: nat,
                    z: nat)
    requires Inverted(c, dependents) && c.modules < |c.syms| && |vis| == |c.syms|
    requires forall s: nat | s < |c.syms| :: Within(Depends(c.syms[s]), |c.syms|)
    requires SweptFrom(c, dependents, vis, tri, vis', tri', x) && z < |c.syms| && vis'[z].Some?
    ensures Carries(tri, tri', Sources(c, z))
  {
    hide Depends;
    forall y | y in Sources(c, z) && y < |tri| && tri[y].Some?
      ensures tri'[y] == tri[y]
    {
      if y in Depends(c.syms[z]) {
        assert z in dependents[y];
        assert !Clear(dependents, vis', y);
      }
    }
  }

  /** The user value of a symbol without a prompt has no effect. */
  lemma NoPromptNoEffect(c: Config, user: User, vis: Cache, tri: Cache, s: nat, u: Option<Tri>)
    requires Coherent(c, user, vis, tri) && s < |c.syms| && c.syms[s].prompts == []
    ensures Coherent(c, user[s := u], vis, tri)
  {
    hide Cached, DefaultCached, PromotedCached;
    var user' := user[s := u];
    forall z: nat | z < |c.syms|
      ensures EntryOk(c, user', vis, tri, z)
    {
      assert EntryOk(c, user, vis, tri, z);
    }
  }
}
