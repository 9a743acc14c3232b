/** The symbol objects: lazily computed values, set_value, unset_value and recursive invalidation
    (opensbi-1.2/scripts/Kconfiglib/kconfiglib.py). */
module KconfigSymbols {
  import opened Common
  import opened KconfigExpr
  import opened KconfigCache
  import opened KconfigRules

  datatype Op = ReadValue(s: nat) | ReadVisibility(s: nat) | SetValue(s: nat, value: Tri) | UnsetValue(s: nat)

  predicate ItemBelow(i: Item, rank: seq<nat>, bound: nat) {
    i.Symbol? ==> i.id < |rank| && rank[i.id] < bound
  }

  /** All symbols of an expression have a rank, and it is below `bound`. */
  predicate ExprBelow(e: Expr, rank: seq<nat>, bound: nat) {
    match e
    case Leaf(i) => ItemBelow(i, rank, bound)
    case And(l, r) => ExprBelow(l, rank, bound) && ExprBelow(r, rank, bound)
    case Or(l, r) => ExprBelow(l, rank, bound) && ExprBelow(r, rank, bound)
    case Not(a) => ExprBelow(a, rank, bound)
    case Rel(_, a, b) => ItemBelow(a, rank, bound) && ItemBelow(b, rank, bound)
  }

  lemma {:induction false} SymbolsBelow(e: Expr, xs: set<nat>, rank: seq<nat>, bound: nat)
    requires Symbols(e) <= xs && forall x | x in xs :: x < |rank| && rank[x] < bound
    ensures ExprBelow(e, rank, bound)
  {
    match e
    case Leaf(i) =>
    case Rel(_, a, b) =>
    case Not(a) => SymbolsBelow(a, xs, rank, bound);
    case And(l, r) =>
      SymbolsBelow(l, xs, rank, bound);
      SymbolsBelow(r, xs, rank, bound);
    case Or(l, r) =>
      SymbolsBelow(l, xs, rank, bound);
      SymbolsBelow(r, xs, rank, bound);
  }

  /** Acyclicity, as the facts about one symbol that evaluation needs. */
  lemma Below(c: Config, rank: seq<nat>, s: nat)
    requires Acyclic(c, rank) && s < |c.syms|
    ensures |rank| == |c.syms| && c.modules < |c.syms|
    ensures var d := c.syms[s];
      && ExprBelow(d.revDep, rank, rank[s]) && ExprBelow(d.weakRevDep, rank, rank[s])
      && ExprBelow(d.directDep, rank, rank[s])
      && (d.kind.Tristate? ==> rank[c.modules] < rank[s])
      && Comparable(c, d.revDep) && Comparable(c, d.weakRevDep) && Comparable(c, d.directDep)
  {
    var d := c.syms[s];
    SymbolsBelow(d.revDep, Depends(d), rank, rank[s]);
    SymbolsBelow(d.weakRevDep, Depends(d), rank, rank[s]);
    SymbolsBelow(d.directDep, Depends(d), rank, rank[s]);
  }

  lemma DependsWithin(c: Config, rank: seq<nat>, s: nat)
    requires Acyclic(c, rank) && s < |c.syms|
    ensures Within(Symbols(c.syms[s].revDep), |c.syms|) && Within(Symbols(c.syms[s].weakRevDep), |c.syms|)
  {
    assert Symbols(c.syms[s].revDep) <= Depends(c.syms[s]) && Symbols(c.syms[s].weakRevDep) <= Depends(c.syms[s]);
  }

  lemma BelowPrompt(c: Config, rank: seq<nat>, s: nat, j: nat)
    requires Acyclic(c, rank) && s < |c.syms| && j < |c.syms[s].prompts|
    ensures |rank| == |c.syms| && ExprBelow(c.syms[s].prompts[j], rank, rank[s]) && Comparable(c, c.syms[s].prompts[j])
  {
    PromptPrefix(c.syms[s].prompts, 0);
    SymbolsBelow(c.syms[s].prompts[j], Depends(c.syms[s]), rank, rank[s]);
  }

  lemma BelowDefault(c: Config, rank: seq<nat>, s: nat, j: nat)
    requires Acyclic(c, rank) && s < |c.syms| && j < |c.syms[s].defaults|
    ensures |rank| == |c.syms| && ExprBelow(c.syms[s].defaults[j].cond, rank, rank[s])
    ensures ExprBelow(c.syms[s].defaults[j].value, rank, rank[s])
    ensures Comparable(c, c.syms[s].defaults[j].cond) && Comparable(c, c.syms[s].defaults[j].value)
  {
    DefaultMember(c.syms[s].defaults, j);
    SymbolsBelow(c.syms[s].defaults[j].cond, Depends(c.syms[s]), rank, rank[s]);
    SymbolsBelow(c.syms[s].defaults[j].value, Depends(c.syms[s]), rank, rank[s]);
  }

  class Kconfig {
    const c: Config
    ghost const rank: seq<nat>
    var dependents: seq<set<nat>>
    var user: User
    var vis: Cache
    var tri: Cache

    ghost predicate Valid()
      reads this
      ensures Valid() ==>
        Acyclic(c, rank) && Coherent(c, user, vis, tri) && |user| == |vis| == |tri| == |rank| == |c.syms|
    {
      Acyclic(c, rank) && Inverted(c, dependents) && Coherent(c, user, vis, tri)
    }

    /** _build_dep, then nothing is cached. */
    constructor (c: Config, ghost rank: seq<nat>)
      requires Acyclic(c, rank)
      ensures Valid() && this.c == c
      ensures forall s: nat | s < |c.syms| :: user[s] == None && vis[s] == None && tri[s] == None
    {
      this.c, this.rank := c, rank;
      var n := |c.syms|;
      user, vis, tri := seq(n, _ => None), seq(n, _ => None), seq(n, _ => None);
      dependents := seq(n, _ => {});
      new;
      BuildDep();
    }

    // -------------------------------------------------------------- dependencies

    method AddDependent(i: Item, s: nat)
      requires |dependents| == |c.syms| && ItemSymbols(i) <= UpTo(|c.syms|)
      modifies `dependents
      ensures Added(old(dependents), dependents, ItemSymbols(i), s)
    {
      if i.Symbol? {
        dependents := dependents[i.id := dependents[i.id] + {s}];
      }
    }

    /** _depend_on. */
    method DependOn(s: nat, e: Expr)
      requires |dependents| == |c.syms| && Symbols(e) <= UpTo(|c.syms|)
      modifies `dependents
      ensures Added(old(dependents), dependents, Symbols(e), s)
      decreases e
    {
      hide UpTo;
      match e
      case Leaf(i) => AddDependent(i, s);
      case Not(a) => DependOn(s, a);
      case And(l, r) =>
        DependOn(s, l);
        DependOn(s, r);
      case Or(l, r) =>
        DependOn(s, l);
        DependOn(s, r);
      case Rel(_, a, b) =>
        AddDependent(a, s);
        AddDependent(b, s);
    }

    /** One symbol's round of _build_dep. */
    method DependOnAll(s: nat)
      requires |dependents| == |c.syms| && s < |c.syms| && Depends(c.syms[s]) <= UpTo(|c.syms|)
      modifies `dependents
      ensures Added(old(dependents), dependents, Depends(c.syms[s]), s)
    {
      var d := c.syms[s];
      PromptPrefix(d.prompts, |d.prompts|);
      var i := 0;
      while i < |d.prompts|
        invariant 0 <= i <= |d.prompts|
        invariant Added(old(dependents), dependents, PromptSymbols(d.prompts[..i]), s)
      {
        PromptSymbolsSnoc(d.prompts, i);
        DependOn(s, d.prompts[i]);
        i := i + 1;
      }
      assert d.prompts[..i] == d.prompts;
      i := 0;
      while i < |d.defaults|
        invariant 0 <= i <= |d.defaults|
        invariant Added(old(dependents), dependents, PromptSymbols(d.prompts) + DefaultSymbols(d.defaults[..i]), s)
      {
        DefaultMember(d.defaults, i);
        DefaultSymbolsSnoc(d.defaults, i);
        DependOn(s, d.defaults[i].value);
        DependOn(s, d.defaults[i].cond);
        i := i + 1;
      }
      assert d.defaults[..i] == d.defaults;
      DependOn(s, d.revDep);
      DependOn(s, d.weakRevDep);
      DependOn(s, d.directDep);
    }

    /** _build_dep: the dependents of y are exactly the symbols that mention y. */
    method BuildDep()
      requires Acyclic(c, rank) && dependents == seq(|c.syms|, _ => {})
      modifies `dependents
      ensures Inverted(c, dependents)
    {
      hide Depends;
      var s := 0;
      while s < |c.syms|
        invariant 0 <= s <= |c.syms| == |dependents|
        invariant forall y: nat, z: nat | y < |c.syms| :: z in dependents[y] <==> z < s && Mentions(c, z, y)
      {
        assert Depends(c.syms[s]) <= UpTo(|c.syms|);
        DependOnAll(s);
        s := s + 1;
      }
    }

    // -------------------------------------------------------------- reading

    method ItemTri(i: Item, ghost bound: nat) returns (v: Tri)
      requires Valid() && ItemBelow(i, rank, bound)
      modifies `vis, `tri
      ensures Valid() && Grown(old(vis), vis) && Grown(old(tri), tri) && ItemCached(i, tri) == Some(v)
      decreases bound, 0
    {
      match i
      case Constant(t) => v := t;
      case Symbol(s) => v := TriValue(s);
    }

    /** expr_value. */
    method ExprValue(e: Expr, ghost bound: nat) returns (v: Tri)
      requires Valid() && ExprBelow(e, rank, bound) && Comparable(c, e)
      modifies `vis, `tri
      ensures Valid() && Grown(old(vis), vis) && Grown(old(tri), tri) && Cached(e, tri) == Some(v)
      decreases bound, 1, e
    {
      hide Valid, Acyclic, Coherent;
      match e
      case Leaf(i) =>
        v := ItemTri(i, bound);
      case And(l, r) =>
        v := ExprValue(l, bound);
        if v != 0 {
          ghost var t := tri;
          var w := ExprValue(r, bound);
          CachedGrown(l, t, tri);
          v := Min(v, w);
        }
      case Or(l, r) =>
        v := ExprValue(l, bound);
        if v != 2 {
          ghost var t := tri;
          var w := ExprValue(r, bound);
          CachedGrown(l, t, tri);
          v := Max(v, w);
        }
      case Not(a) =>
        v := ExprValue(a, bound);
        v := 2 - v;
      case Rel(op, a, b) =>
        v := ItemTri(a, bound);
        ghost var t := tri;
        var w := ItemTri(b, bound);
        CachedGrown(Leaf(a), t, tri);
        v := Compare(op, v, w);
    }

    /** The type property: a tristate counts as one while MODULES is not n. */
    method ActsAsTristate(s: nat) returns (b: bool)
      requires Valid() && s < |c.syms|
      modifies `vis, `tri
      ensures Valid() && Grown(old(vis), vis) && Grown(old(tri), tri) && TristateCached(c, s, tri) == Some(b)
      decreases rank[s], 2
    {
      hide Valid, Acyclic, Coherent, ExprBelow;
      Below(c, rank, s);
      if c.syms[s].kind.Tristate? {
        var m := TriValue(c.modules);
        b := m != 0;
      } else {
        b := false;
      }
    }

    /** The loop of _visibility over the prompts. */
    method PromptLoop(s: nat) returns (v: Tri)
      requires Valid() && s < |c.syms|
      modifies `vis, `tri
      ensures Valid() && Grown(old(vis), vis) && Grown(old(tri), tri) && PromptCached(c.syms[s].prompts, tri) == Some(v)
      decreases rank[s], 2
    {
      hide *;
      var ps := c.syms[s].prompts;
      NoPrompts(tri);
      assert ps[..0] == [];
      GrownSame(vis);
      GrownSame(tri);
      v := 0;
      var i := 0;
      while i < |ps|
        invariant 0 <= i <= |ps| && Valid() && Grown(old(vis), vis) && Grown(old(tri), tri)
        invariant PromptCached(ps[..i], tri) == Some(v)
      {
        ghost var vis0, tri0 := vis, tri;
        BelowPrompt(c, rank, s, i);
        var w := ExprValue(ps[i], rank[s]);
        GrownTrans(old(vis), vis0, vis);
        GrownTrans(old(tri), tri0, tri);
        PromptGrown(ps[..i], tri0, tri);
        PromptSnoc(ps[..i], ps[i], tri);
        assert ps[..i + 1] == ps[..i] + [ps[i]];
        v := Max(v, w);
        i := i + 1;
      }
      assert ps[..i] == ps;
    }

    /** The visibility property. */
    method Visibility(s: nat) returns (v: Tri)
      requires Valid() && s < |c.syms|
      modifies `vis, `tri
      ensures Valid() && Grown(old(vis), vis) && Grown(old(tri), tri) && vis[s] == Some(v)
      decreases rank[s], 3
    {
      if vis[s].Some? {
        return vis[s].value;
      }
      v := PromptLoop(s);
      if v == 1 {
        ghost var t := tri;
        var b := ActsAsTristate(s);
        PromptGrown(c.syms[s].prompts, t, tri);
        if !b {
          v := 2;
        }
      }
      hide Acyclic, Inverted, Coherent, PromptCached;
      AddVis(c, user, vis, tri, s, v);
      vis := vis[s := Some(v)];
    }

    /** The loop of tri_value over the defaults. */
    method DefaultLoop(s: nat) returns (v: Tri)
      requires Valid() && s < |c.syms|
      modifies `vis, `tri
      ensures Valid() && Grown(old(vis), vis) && Grown(old(tri), tri)
      ensures DefaultCached(c.syms[s].defaults, tri) == Some(v)
      decreases rank[s], 2
    {
      hide *;
      var ds := c.syms[s].defaults;
      GrownSame(vis);
      GrownSame(tri);
      v := 0;
      var i := 0;
      while i < |ds|
        invariant 0 <= i <= |ds| && Valid() && Grown(old(vis), vis) && Grown(old(tri), tri) && v == 0
        invariant forall j | 0 <= j < i :: Cached(ds[j].cond, tri) == Some(0)
      {
        ghost var vis0, tri0 := vis, tri;
        BelowDefault(c, rank, s, i);
        var dep := ExprValue(ds[i].cond, rank[s]);
        GrownTrans(old(vis), vis0, vis);
        GrownTrans(old(tri), tri0, tri);
        forall j | 0 <= j < i ensures Cached(ds[j].cond, tri) == Some(0) { CachedGrown(ds[j].cond, tri0, tri); }
        if dep != 0 {
          vis0, tri0 := vis, tri;
          v := ExprValue(ds[i].value, rank[s]);
          GrownTrans(old(vis), vis0, vis);
          GrownTrans(old(tri), tri0, tri);
          forall j | 0 <= j <= i
            ensures Cached(ds[j].cond, tri) == Cached(ds[j].cond, tri0)
          {
            CachedGrown(ds[j].cond, tri0, tri);
          }
          DefaultSkip(ds, i, tri);
          DefaultTaken(ds[i..], tri);
          v := Min(v, dep);
          return;
        }
        i := i + 1;
      }
      DefaultSkip(ds, i, tri);
      assert ds[i..] == [];
      NoDefaults(tri);
    }

    /** tri_value up to the reverse dependencies, for a symbol with visibility `shown`. */
    method BaseValue(s: nat, shown: Tri) returns (v: Tri)
      requires Valid() && s < |c.syms|
      modifies `vis, `tri
      ensures Valid() && Grown(old(vis), vis) && Grown(old(tri), tri)
      ensures BaseCached(c.syms[s], user[s], shown, tri) == Some(v)
      decreases rank[s], 3
    {
      hide Valid, Acyclic, Coherent, Cached, DefaultCached, ExprBelow;
      Below(c, rank, s);
      var d := c.syms[s];
      if shown != 0 && user[s].Some? {
        return Min(user[s].value, shown);
      }
      v := DefaultLoop(s);
      ghost var t := tri;
      var weak := ExprValue(d.weakRevDep, rank[s]);
      DefaultGrown(d.defaults, t, tri);
      if weak != 0 {
        t := tri;
        var direct := ExprValue(d.directDep, rank[s]);
        DefaultGrown(d.defaults, t, tri);
        CachedGrown(d.weakRevDep, t, tri);
        if direct != 0 {
          v := Max(weak, v);
        }
      }
    }

    /** The promotion of m at the end of tri_value. */
    method Promote(s: nat, v: Tri) returns (r: Tri)
      requires Valid() && s < |c.syms|
      modifies `vis, `tri
      ensures Valid() && Grown(old(vis), vis) && Grown(old(tri), tri) && PromotedCached(c, s, v, tri) == Some(r)
      decreases rank[s], 3
    {
      hide Valid, Acyclic, Coherent, Cached, ExprBelow;
      Below(c, rank, s);
      r := v;
      if v == 1 {
        var b := ActsAsTristate(s);
        if !b {
          r := 2;
        } else {
          ghost var t := tri;
          var weak := ExprValue(c.syms[s].weakRevDep, rank[s]);
          assert TristateCached(c, s, tri) == TristateCached(c, s, t);
          if weak == 2 {
            r := 2;
          }
        }
      }
    }

    /** tri_value of a bool or tristate whose value is not cached, before it is stored. */
    method Compute(s: nat) returns (v: Tri)
      requires Valid() && s < |c.syms| && !c.syms[s].kind.Other?
      modifies `vis, `tri
      ensures Valid() && Grown(old(vis), vis) && Grown(old(tri), tri)
      ensures TriCached(c, s, user[s], vis[s], tri) == Some(v)
      decreases rank[s], 4
    {
      hide Valid, Acyclic, Coherent, Cached, BaseCached, PromotedCached, ExprBelow;
      Below(c, rank, s);
      var d := c.syms[s];
      var shown := Visibility(s);
      ghost var vis1 := vis;
      v := BaseValue(s, shown);
      ghost var t := tri;
      var rev := ExprValue(d.revDep, rank[s]);
      BaseGrown(d, user[s], shown, t, tri);
      var raised := v;
      if rev != 0 {
        t := tri;
        var direct := ExprValue(d.directDep, rank[s]);
        BaseGrown(d, user[s], shown, t, tri);
        CachedGrown(d.revDep, t, tri);
        raised := Max(rev, v);
      }
      t := tri;
      var r := Promote(s, raised);
      BaseGrown(d, user[s], shown, t, tri);
      CachedGrown(d.revDep, t, tri);
      v := r;
    }

    /** The tri_value property. */
    method TriValue(s: nat) returns (v: Tri)
      requires Valid() && s < |c.syms|
      modifies `vis, `tri
      ensures Valid() && Grown(old(vis), vis) && Grown(old(tri), tri) && tri[s] == Some(v)
      decreases rank[s], 5
    {
      hide Acyclic, Coherent, Inverted;
      if tri[s].Some? {
        return tri[s].value;
      }
      if c.syms[s].kind.Other? {
        v := 0;
      } else {
        v := Compute(s);
      }
      AddTri(c, user, vis, tri, s, v);
      tri := tri[s := Some(v)];
    }

    // -------------------------------------------------------------- invalidating

    /** _invalidate. */
    method Invalidate(s: nat)
      requires s < |vis| == |tri|
      modifies `vis, `tri
      ensures vis == old(vis)[s := None] && tri == old(tri)[s := None]
    {
      vis, tri := vis[s := None], tri[s := None];
    }

    /** _invalidate_all. */
    method InvalidateAll()
      requires |vis| == |tri|
      modifies `vis, `tri
      ensures |vis| == |tri| == |old(vis)| && forall z: nat | z < |vis| :: vis[z] == None && tri[z] == None
    {
      var s := 0;
      while s < |vis|
        invariant 0 <= s <= |vis| == |tri| == |old(vis)|
        invariant forall z: nat | z < s :: vis[z] == None && tri[z] == None
      {
        Invalidate(s);
        s := s + 1;
      }
    }

    /** The symbols with a cached visibility, which is what the recursion runs out of. */
    ghost function Live(): set<nat>
      reads this
    {
      set z: nat | z < |vis| && vis[z].Some?
    }

    /** _rec_invalidate: the recursion only follows dependents that have cached values. */
    method RecInvalidate(x: nat)
      requires |dependents| == |vis| == |tri| == |c.syms| && c.modules < |c.syms| && x < |c.syms|
      requires forall y: nat, d: nat | y < |dependents| && d in dependents[y] :: d < |c.syms|
      modifies `vis, `tri
      ensures SweptFrom(c, dependents, old(vis), old(tri), vis, tri, x)
      decreases Live(), if vis[x].Some? then 0 else 1
    {
      ghost var vis0, tri0, live0 := vis, tri, Live();
      if x == c.modules {
        InvalidateAll();
        return;
      }
      Invalidate(x);
      assert Live() <= live0 && (vis0[x].Some? ==> x in live0 && x !in Live());
      var todo := dependents[x];
      while todo != {}
        invariant todo <= dependents[x] && Live() <= live0 && (vis0[x].Some? ==> x !in Live())
        invariant Sweeping(c, dependents, vis0, tri0, vis, tri, x, todo)
        decreases |todo|
      {
        var d :| d in todo;
        ghost var vis1, tri1 := vis, tri;
        if vis[d].Some? {
          RecInvalidate(d);
          assert Live() <= live0 by { assert forall z: nat | z < |vis| && vis[z].Some? :: vis1[z].Some?; }
        }
        SweepMore(c, dependents, vis0, tri0, vis1, tri1, vis, tri, x, todo, d);
        todo := todo - {d};
      }
    }

    /** _rec_invalidate_if_has_prompt, after the user value of s has changed. */
    method InvalidateIfPrompted(s: nat, ghost before: User)
      requires Acyclic(c, rank) && Inverted(c, dependents) && Coherent(c, before, vis, tri)
      requires s < |before| == |user| && user == before[s := user[s]]
      modifies `vis, `tri
      ensures Valid()
    {
      hide VisCached, TriCached, Depends;
      ghost var vis0, tri0 := vis, tri;
      if c.syms[s].prompts != [] {
        DependentsInRange(c, dependents);
        RecInvalidate(s);
        SweepKeeps(c, dependents, before, user, vis0, tri0, vis, tri, s);
      } else {
        NoPromptNoEffect(c, before, vis, tri, s, user[s]);
      }
    }

    // -------------------------------------------------------------- the interface

    /** set_value: refuses what does not suit the type, and skips the invalidation when nothing
        changes. */
    method Set(s: nat, value: Tri) returns (ok: bool)
      requires Valid() && s < |c.syms|
      modifies `user, `vis, `tri
      ensures Valid()
      ensures ok <==> old(user)[s] == Some(value) || Suits(c.syms[s].kind, value)
      ensures user == if ok then old(user)[s := Some(value)] else old(user)
    {
      hide Coherent, Acyclic;
      if user[s] == Some(value) {
        assert user == user[s := Some(value)];
        return true;
      }
      if !Suits(c.syms[s].kind, value) {
        return false;
      }
      ghost var before := user;
      user := user[s := Some(value)];
      InvalidateIfPrompted(s, before);
      ok := true;
    }

    /** unset_value. */
    method Unset(s: nat)
      requires Valid() && s < |c.syms|
      modifies `user, `vis, `tri
      ensures Valid() && user == old(user)[s := None]
    {
      hide Coherent, Acyclic;
      if user[s].Some? {
        ghost var before := user;
        user := user[s := None];
        InvalidateIfPrompted(s, before);
      } else {
        assert user == user[s := None];
      }
    }

    /** Reading a value gives what a computation from scratch gives, whatever was read and set
        before, and that obeys the rule. */
    method Read(s: nat) returns (v: Tri)
      requires Valid() && s < |c.syms|
      modifies `vis, `tri
      ensures Valid() && forall env | Solves(c, user, env) :: v == env(s) && Obeys(c, s, user[s], env, v)
    {
      hide *;
      v := TriValue(s);
      forall env | Solves(c, user, env)
        ensures v == env(s) && Obeys(c, s, user[s], env, v)
      {
        CacheIsRight(c, rank, user, vis, tri, env, s);
        ValueRules(c, user, env, s);
      }
    }

    method ReadVis(s: nat) returns (v: Tri)
      requires Valid() && s < |c.syms|
      modifies `vis, `tri
      ensures Valid() && forall env | Solves(c, user, env) :: v == VisibleIn(c, s, env) && Shown(c, s, env, v)
    {
      hide *;
      v := Visibility(s);
      forall env | Solves(c, user, env)
        ensures v == VisibleIn(c, s, env) && Shown(c, s, env, v)
      {
        CacheIsRight(c, rank, user, vis, tri, env, s);
        VisibilityRules(c, s, env);
      }
    }

    method ReadExpr(e: Expr, ghost bound: nat) returns (v: Tri)
      requires Valid() && ExprBelow(e, rank, bound) && Comparable(c, e) && Within(Symbols(e), |c.syms|)
      modifies `vis, `tri
      ensures Valid() && forall env | Solves(c, user, env) :: v == Value(e, env)
    {
      hide *;
      v := ExprValue(e, bound);
      forall env | Solves(c, user, env) ensures v == Value(e, env) { CachedRight(c, rank, user, vis, tri, env, e); }
    }

    method ReadType(s: nat) returns (b: bool)
      requires Valid() && s < |c.syms|
      modifies `vis, `tri
      ensures Valid() && forall env | Solves(c, user, env) :: b == IsTristate(c, s, env)
    {
      hide Valid, Acyclic, Coherent, Solves;
      b := ActsAsTristate(s);
      forall env | Solves(c, user, env)
        ensures b == IsTristate(c, s, env)
      {
        Below(c, rank, s);
        CacheIsRight(c, rank, user, vis, tri, env, c.modules);
      }
    }

    /** _assignable. */
    method Assignable(s: nat) returns (a: seq<Tri>)
      requires Valid() && s < |c.syms|
      modifies `vis, `tri
      ensures Valid() && forall env | Solves(c, user, env) :: a == OfferedIn(c, s, env)
    {
      hide Valid, Acyclic, Coherent, Solves, Value, VisibleIn, IsTristate, Symbols, Comparable, ExprBelow, Shown;
      var d := c.syms[s];
      if d.kind.Other? {
        return [];
      }
      Below(c, rank, s);
      DependsWithin(c, rank, s);
      var v := ReadVis(s);
      if v == 0 {
        return [];
      }
      var rev := ReadExpr(d.revDep, rank[s]);
      if v == 2 {
        if rev == 2 {
          return [2];
        }
        var b := ReadType(s);
        var weak := 0;
        if b {
          weak := ReadExpr(d.weakRevDep, rank[s]);
        }
        if rev == 0 {
          return if !b || weak == 2 then [0, 2] else [0, 1, 2];
        }
        return if !b || weak == 2 then [2] else [1, 2];
      }
      if rev == 0 {
        var weak := ReadExpr(d.weakRevDep, rank[s]);
        return if weak != 2 then [0, 1] else [0, 2];
      }
      return if rev == 2 then [2] else [1];
    }

    /** set_value and then tri_value: for a visible symbol the value set comes back exactly if it was
        on offer, apart from the one exception. Within the visibility and not below what selects the
        symbol, n and y always do. */
    method SetThenRead(s: nat, value: Tri) returns (ok: bool, v: Tri)
      requires Valid() && s < |c.syms| && !c.syms[s].kind.Other?
      modifies `user, `vis, `tri
      ensures Valid() && (ok <==> old(user)[s] == Some(value) || c.syms[s].kind.Tristate? || value != 1)
      ensures ok ==> forall env | Solves(c, old(user), env) ::
        && (Shown(c, s, env, 0) ==> v == env(s))
        && (!Shown(c, s, env, 0) && !Torn(c, s, env) ==> (value in OfferedIn(c, s, env) <==> v == value))
      ensures value != 1 ==> forall env, shown: Tri | Solves(c, old(user), env) && Shown(c, s, env, shown) ::
        shown > 0 && Value(c.syms[s].revDep, env) <= value <= shown ==> ok && v == value
    {
      hide Valid, Acyclic, Coherent, Solves, Value, Shown, OfferedIn, Torn, Obeys;
      ghost var user0 := user;
      ok := Set(s, value);
      v := Read(s);
      ghost var env' := SolutionExists(c, rank, user);
      if ok {
        forall env | Solves(c, user0, env)
          ensures Shown(c, s, env, 0) ==> v == env(s)
          ensures !Shown(c, s, env, 0) && !Torn(c, s, env) ==> (value in OfferedIn(c, s, env) <==> v == value)
        {
          OfferedExactly(c, rank, user0, s, value, env, env');
        }
      }
      if value != 1 {
        forall env, shown: Tri | Solves(c, user0, env) && Shown(c, s, env, shown)
          ensures shown > 0 && Value(c.syms[s].revDep, env) <= value <= shown ==> v == value
        {
          if shown > 0 && Value(c.syms[s].revDep, env) <= value <= shown {
            SetTakes(c, rank, user0, s, value, env, env', shown);
          }
        }
      }
    }

    /** Every run: whatever is cached at its end is the value from scratch under the user values it
        leaves behind, and that value exists. */
    method Run(ops: seq<Op>) returns (ghost env: nat -> Tri)
      requires Valid() && forall i | 0 <= i < |ops| :: ops[i].s < |c.syms|
      modifies `user, `vis, `tri
      ensures Valid() && Solves(c, user, env)
      ensures user == FinalUser(c, ops, old(user))
      ensures forall s: nat | s < |c.syms| && tri[s].Some? :: tri[s].value == env(s)
      ensures forall s: nat | s < |c.syms| && vis[s].Some? :: vis[s].value == VisibleIn(c, s, env)
    {
      hide Valid, Acyclic, Coherent, VisibleIn, Solves;
      var i := 0;
      assert ops[..0] == [];
      while i < |ops|
        invariant 0 <= i <= |ops| && Valid() && user == FinalUser(c, ops[..i], old(user))
      {
        assert ops[..i + 1][..i] == ops[..i];
        match ops[i] {
          case ReadValue(s) =>
            var v := Read(s);
          case ReadVisibility(s) =>
            var v := ReadVis(s);
          case SetValue(s, value) =>
            var ok := Set(s, value);
          case UnsetValue(s) =>
            Unset(s);
        }
        i := i + 1;
      }
      assert ops[..i] == ops;
      env := SolutionExists(c, rank, user);
      forall s: nat | s < |c.syms|
        ensures tri[s].Some? ==> tri[s].value == env(s)
        ensures vis[s].Some? ==> vis[s].value == VisibleIn(c, s, env)
      {
        CacheIsRight(c, rank, user, vis, tri, env, s);
      }
    }
  }

  /** Which values set_value accepts. */
  predicate Suits(kind: Kind, value: Tri) { (kind.Bool? && value != 1) || kind.Tristate? }

  /** The user values after a sequence of operations. */
  function FinalUser(c: Config, ops: seq<Op>, user: User): (r: User)
    requires |user| == |c.syms| && forall i | 0 <= i < |ops| :: ops[i].s < |c.syms|
    ensures |r| == |user|
  {
    if ops == [] then user
    else
      var before := FinalUser(c, ops[..|ops| - 1], user);
      match ops[|ops| - 1]
      case SetValue(s, value) => if Suits(c.syms[s].kind, value) then before[s := Some(value)] else before
      case UnsetValue(s) => before[s := None]
      case _ => before
  }

  // ---------------------------------------------------------------- small facts

  lemma DependentsInRange(c: Config, dependents: seq<set<nat>>)
    requires Inverted(c, dependents)
    ensures forall y: nat, d: nat | y < |dependents| && d in dependents[y] :: d < |c.syms|
  {
    forall y: nat, d: nat | y < |dependents| && d in dependents[y]
      ensures d < |c.syms|
    {
      assert Mentions(c, d, y);
    }
  }

  /** s became a dependent of exactly the symbols in xs. */
  ghost predicate Added(before: seq<set<nat>>, after: seq<set<nat>>, xs: set<nat>, s: nat) {
    |after| == |before| && forall y: nat, z: nat | y < |after| :: z in after[y] <==>
      z in before[y] || (z == s && y in xs)
  }

  lemma PromptSymbolsSnoc(ps: seq<Expr>, i: nat)
    requires i < |ps|
    ensures PromptSymbols(ps[..i + 1]) == PromptSymbols(ps[..i]) + Symbols(ps[i])
  {
    if i == 0 {
      assert ps[..1] == [ps[0]];
    } else {
      assert ps[..i + 1][1..] == ps[1..][..i] && ps[..i][1..] == ps[1..][..i - 1];
      PromptSymbolsSnoc(ps[1..], i - 1);
    }
  }

  lemma DefaultSymbolsSnoc(ds: seq<Default>, i: nat)
    requires i < |ds|
    ensures DefaultSymbols(ds[..i + 1]) == DefaultSymbols(ds[..i]) + Symbols(ds[i].value) + Symbols(ds[i].cond)
  {
    if i == 0 {
      assert ds[..1] == [ds[0]];
    } else {
      assert ds[..i + 1][1..] == ds[1..][..i] && ds[..i][1..] == ds[1..][..i - 1];
      DefaultSymbolsSnoc(ds[1..], i - 1);
    }
  }

  /** A sweep under way: the dependents of x in `todo` are still to be visited. */
  ghost predicate Sweeping(c: Config, dependents: seq<set<nat>>, vis0: Cache, tri0: Cache, vis: Cache, tri: Cache,
                           x: nat, todo: set<nat>)
    requires |dependents| == |vis0| == |c.syms| && c.modules < |c.syms|
  {
    && Dropped(vis0, tri0, vis, tri) && x < |vis| && vis[x] == None && tri[x] == None
    && (forall d | d in dependents[x] && d < |vis| && d !in todo :: vis[d] == None)
    && (forall y: nat | y < |vis0| && y != x && (vis[y] != vis0[y] || tri[y] != tri0[y]) :: Clear(dependents, vis, y))
    && (tri[c.modules] != tri0[c.modules] || vis[c.modules] != vis0[c.modules] ==>
          forall z: nat | z < |vis| :: vis[z] == None && tri[z] == None)
  }

  lemma SweepMore(c: Config, dependents: seq<set<nat>>, vis0: Cache, tri0: Cache, vis1: Cache, tri1: Cache,
                  vis2: Cache, tri2: Cache,
                  x: nat, todo: set<nat>, d: nat)
    requires |dependents| == |vis0| == |c.syms| && c.modules < |c.syms| && d < |c.syms|
    requires Sweeping(c, dependents, vis0, tri0, vis1, tri1, x, todo)
    requires if vis1[d].Some? then SweptFrom(c, dependents, vis1, tri1, vis2, tri2, d) else vis2 == vis1 && tri2 == tri1
    ensures Sweeping(c, dependents, vis0, tri0, vis2, tri2, x, todo - {d})
  {
    forall y: nat | y < |vis0| && y != x && (vis2[y] != vis0[y] || tri2[y] != tri0[y])
      ensures Clear(dependents, vis2, y)
    {
      if vis1[y] != vis0[y] || tri1[y] != tri0[y] {
        assert Clear(dependents, vis1, y);
      }
    }
  }

  lemma DefaultTaken(ds: seq<Default>, t: Cache)
    requires ds != [] && Cached(ds[0].cond, t).Some? && Cached(ds[0].cond, t) != Some(0) && Cached(ds[0].value, t).Some?
    ensures DefaultCached(ds, t) == Some(Min(Cached(ds[0].value, t).value, Cached(ds[0].cond, t).value))
  {
  }

  lemma NoPrompts(t: Cache)
    ensures PromptCached([], t) == Some(0)
  {
  }

  lemma NoDefaults(t: Cache)
    ensures DefaultCached([], t) == Some(0)
  {
  }
}
