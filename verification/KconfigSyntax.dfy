/** Printing and parsing of expressions (expr_str, _parse_expr of
    opensbi-1.2/scripts/Kconfiglib/kconfiglib.py), on tokens. */
module KconfigSyntax {
  import opened KconfigExpr

  datatype Token = Name(item: Item) | AndT | OrT | NotT | Open | Close | RelT(op: Relation)

  // ---------------------------------------------------------------- printing

  /** _parenthesize for the operands of an AND: an OR gets parentheses. */
  function AndOperand(e: Expr): seq<Token>
    decreases e, 1
  {
    if e.Or? then [Open] + Print(e) + [Close] else Print(e)
  }

  /** ... and for the operands of an OR: an AND gets them. */
  function OrOperand(e: Expr): seq<Token>
    decreases e, 1
  {
    if e.And? then [Open] + Print(e) + [Close] else Print(e)
  }

  /** expr_str. */
  function Print(e: Expr): seq<Token>
    decreases e, 0
  {
    match e
    case Leaf(i) => [Name(i)]
    case And(l, r) => AndOperand(l) + [AndT] + AndOperand(r)
    case Or(l, r) => OrOperand(l) + [OrT] + OrOperand(r)
    case Not(a) => if a.Leaf? then [NotT, Name(a.item)] else [NotT, Open] + Print(a) + [Close]
    case Rel(op, a, b) => [Name(a), RelT(op), Name(b)]
  }

  // ---------------------------------------------------------------- parsing

  datatype Parse = Parsed(e: Expr, rest: seq<Token>) | Malformed

  /** Whether `m` is rewritten to `m && MODULES`, and which symbol MODULES is. */
  datatype Mode = Plain | Rewrite(modules: nat)

  function Plainly(i: Item, mode: Mode): Expr {
    if mode.Rewrite? && i == Constant(1) then And(Leaf(i), Leaf(Symbol(mode.modules))) else Leaf(i)
  }

  predicate Starts(ts: seq<Token>, t: Token) { ts != [] && ts[0] == t }
  predicate StartsRel(ts: seq<Token>) { ts != [] && ts[0].RelT? }

  /** expr: and_expr ['||' expr]. */
  function ParseOr(ts: seq<Token>, mode: Mode): (p: Parse)
    ensures p.Parsed? ==> |p.rest| < |ts|
    decreases |ts|, 2
  {
    var a := ParseAnd(ts, mode);
    if a.Malformed? || !Starts(a.rest, OrT) then a
    else
      var b := ParseOr(a.rest[1..], mode);
      if b.Malformed? then b else Parsed(Or(a.e, b.e), b.rest)
  }

  /** and_expr: factor ['&&' and_expr]. */
  function ParseAnd(ts: seq<Token>, mode: Mode): (p: Parse)
    ensures p.Parsed? ==> |p.rest| < |ts|
    decreases |ts|, 1
  {
    var a := ParseFactor(ts, mode);
    if a.Malformed? || !Starts(a.rest, AndT) then a
    else
      var b := ParseAnd(a.rest[1..], mode);
      if b.Malformed? then b else Parsed(And(a.e, b.e), b.rest)
  }

  /** factor: symbol [relation symbol] | '!' factor | '(' expr ')'. */
  function ParseFactor(ts: seq<Token>, mode: Mode): (p: Parse)
    ensures p.Parsed? ==> |p.rest| < |ts|
    decreases |ts|, 0
  {
    if ts == [] then Malformed
    else match ts[0]
      case Name(a) =>
        if !StartsRel(ts[1..]) then Parsed(Plainly(a, mode), ts[1..])
        else if |ts| > 2 && ts[2].Name? then Parsed(Rel(ts[1].op, a, ts[2].item), ts[3..])
        else Malformed
      case NotT =>
        var p := ParseFactor(ts[1..], mode);
        if p.Malformed? then p else Parsed(Not(p.e), p.rest)
      case Open =>
        var p := ParseOr(ts[1..], mode);
        if p.Parsed? && Starts(p.rest, Close) then Parsed(p.e, p.rest[1..]) else Malformed
      case _ => Malformed
  }

  /** The parser object: a token list and a position in it. */
  class Parser {
    const tokens: seq<Token>
    const mode: Mode
    var pos: nat

    constructor (tokens: seq<Token>, mode: Mode)
      ensures this.tokens == tokens && this.mode == mode && pos == 0
    {
      this.tokens, this.mode, pos := tokens, mode, 0;
    }

    /** _check_token. */
    method Check(t: Token) returns (found: bool)
      requires pos <= |tokens|
      modifies `pos
      ensures found <==> Starts(tokens[old(pos)..], t)
      ensures pos == if found then old(pos) + 1 else old(pos)
      ensures pos <= |tokens|
    {
      found := pos < |tokens| && tokens[pos] == t;
      if found {
        pos := pos + 1;
      }
    }

    /** _parse_expr. */
    method ParseExpr() returns (ok: bool, e: Expr)
      requires pos <= |tokens|
      modifies `pos
      ensures pos <= |tokens|
      ensures ok <==> ParseOr(tokens[old(pos)..], mode).Parsed?
      ensures ok ==> ParseOr(tokens[old(pos)..], mode) == Parsed(e, tokens[pos..]) && pos > old(pos)
      decreases |tokens| - pos, 2
    {
      ok, e := ParseAndExpr();
      if ok {
        ghost var p1 := pos;
        var more := Check(OrT);
        if more {
          assert tokens[p1..][1..] == tokens[pos..];
          var f;
          ok, f := ParseExpr();
          e := Or(e, f);
        }
      }
    }

    /** _parse_and_expr. */
    method ParseAndExpr() returns (ok: bool, e: Expr)
      requires pos <= |tokens|
      modifies `pos
      ensures pos <= |tokens|
      ensures ok <==> ParseAnd(tokens[old(pos)..], mode).Parsed?
      ensures ok ==> ParseAnd(tokens[old(pos)..], mode) == Parsed(e, tokens[pos..]) && pos > old(pos)
      decreases |tokens| - pos, 1
    {
      ok, e := ParseOne();
      if ok {
        ghost var p1 := pos;
        var more := Check(AndT);
        if more {
          assert tokens[p1..][1..] == tokens[pos..];
          var f;
          ok, f := ParseAndExpr();
          e := And(e, f);
        }
      }
    }

    /** _parse_factor. */
    method ParseOne() returns (ok: bool, e: Expr)
      requires pos <= |tokens|
      modifies `pos
      ensures pos <= |tokens|
      ensures ok <==> ParseFactor(tokens[old(pos)..], mode).Parsed?
      ensures ok ==> ParseFactor(tokens[old(pos)..], mode) == Parsed(e, tokens[pos..]) && pos > old(pos)
      decreases |tokens| - pos, 0
    {
      ghost var ts := tokens[pos..];
      e := Leaf(Constant(0));
      if pos == |tokens| {
        return false, e;
      }
      var token := tokens[pos];
      pos := pos + 1;
      assert ts[1..] == tokens[pos..];
      match token {
        case Name(a) =>
          if !(pos < |tokens| && tokens[pos].RelT?) {
            return true, Plainly(a, mode);
          }
          assert StartsRel(ts[1..]);
          var op := tokens[pos].op;
          pos := pos + 1;
          if pos < |tokens| && tokens[pos].Name? {
            e := Rel(op, a, tokens[pos].item);
            pos := pos + 1;
            assert ts[3..] == tokens[pos..];
            return true, e;
          }
          return false, e;
        case NotT =>
          ok, e := ParseOne();
          e := Not(e);
          return;
        case Open =>
          ok, e := ParseExpr();
          if ok {
            ghost var p1 := pos;
            ok := Check(Close);
            assert ok ==> tokens[p1..][1..] == tokens[pos..];
          }
          return;
        case _ =>
          return false, e;
      }
    }
  }

  // ---------------------------------------------------------------- what comes back

  /** Chains lean to the right after parsing. */
  function JoinAnd(x: Expr, y: Expr): Expr { if x.And? then And(x.left, JoinAnd(x.right, y)) else And(x, y) }
  function JoinOr(x: Expr, y: Expr): Expr { if x.Or? then Or(x.left, JoinOr(x.right, y)) else Or(x, y) }

  function Reassoc(e: Expr): Expr {
    match e
    case And(l, r) => JoinAnd(Reassoc(l), Reassoc(r))
    case Or(l, r) => JoinOr(Reassoc(l), Reassoc(r))
    case Not(a) => Not(Reassoc(a))
    case _ => e
  }

  /** The rewrite of m, everywhere but in relations. */
  function Rewritten(e: Expr, mode: Mode): Expr {
    match e
    case Leaf(i) => Plainly(i, mode)
    case And(l, r) => And(Rewritten(l, mode), Rewritten(r, mode))
    case Or(l, r) => Or(Rewritten(l, mode), Rewritten(r, mode))
    case Not(a) => Not(Rewritten(a, mode))
    case Rel(_, _, _) => e
  }

  lemma {:induction false} JoinAndAssoc(x: Expr, y: Expr, z: Expr)
    ensures JoinAnd(JoinAnd(x, y), z) == JoinAnd(x, JoinAnd(y, z))
  {
    if x.And? {
      JoinAndAssoc(x.right, y, z);
    }
  }

  lemma {:induction false} JoinOrAssoc(x: Expr, y: Expr, z: Expr)
    ensures JoinOr(JoinOr(x, y), z) == JoinOr(x, JoinOr(y, z))
  {
    if x.Or? {
      JoinOrAssoc(x.right, y, z);
    }
  }

  lemma ReassocKind(e: Expr)
    ensures Reassoc(e).And? == e.And? && Reassoc(e).Or? == e.Or? && Reassoc(e).Leaf? == e.Leaf?
  {
  }

  // ---------------------------------------------------------------- the round trip

  /** `ts` can follow an operand without becoming part of it. */
  predicate Ends(ts: seq<Token>) { !StartsRel(ts) }

  /** An operand that is neither an AND nor an OR is read back as a factor. */
  lemma {:induction false} FactorBack(e: Expr, ts: seq<Token>, mode: Mode)
    requires !e.And? && !e.Or? && Ends(ts)
    ensures ParseFactor(Print(e) + ts, mode) == Parsed(Rewritten(Reassoc(e), mode), ts)
    decreases e, 0
  {
    match e
    case Leaf(i) => assert ([Name(i)] + ts)[1..] == ts;
    case Rel(op, a, b) =>
      assert ([Name(a), RelT(op), Name(b)] + ts)[3..] == ts;
    case Not(a) =>
      if a.Leaf? {
        assert (Print(e) + ts)[1..] == Print(a) + ts;
        FactorBack(a, ts, mode);
      } else {
        assert (Print(e) + ts)[1..] == [Open] + Print(a) + [Close] + ts;
        ParenBack(a, ts, mode);
      }
  }

  lemma {:induction false} ParenBack(e: Expr, ts: seq<Token>, mode: Mode)
    ensures ParseFactor([Open] + Print(e) + [Close] + ts, mode) == Parsed(Rewritten(Reassoc(e), mode), ts)
    decreases e, 4
  {
    assert ([Open] + Print(e) + [Close] + ts)[1..] == Print(e) + ([Close] + ts);
    ExprBack(e, [Close] + ts, mode);
    assert ([Close] + ts)[1..] == ts;
  }

  /** An operand of an AND that is not itself an AND. */
  lemma {:induction false} AndFactor(e: Expr, ts: seq<Token>, mode: Mode)
    requires !e.And? && Ends(ts)
    ensures ParseFactor(AndOperand(e) + ts, mode) == Parsed(Rewritten(Reassoc(e), mode), ts)
    decreases e, 5
  {
    if e.Or? {
      ParenBack(e, ts, mode);
    } else {
      FactorBack(e, ts, mode);
    }
  }

  lemma {:induction false} OrFactor(e: Expr, ts: seq<Token>, mode: Mode)
    requires e.And? && Ends(ts)
    ensures ParseFactor(OrOperand(e) + ts, mode) == Parsed(Rewritten(Reassoc(e), mode), ts)
    decreases e, 5
  {
    ParenBack(e, ts, mode);
  }

  /** An operand of an AND, followed by nothing that belongs to the AND. */
  lemma {:induction false} AndLast(e: Expr, ts: seq<Token>, mode: Mode)
    requires Ends(ts) && !Starts(ts, AndT)
    ensures ParseAnd(AndOperand(e) + ts, mode) == Parsed(Rewritten(Reassoc(e), mode), ts)
    decreases e, if e.Or? then 6 else 1
  {
    if e.And? {
      var ts' := [AndT] + AndOperand(e.right) + ts;
      assert AndOperand(e) + ts == AndOperand(e.left) + ts';
      assert ts'[1..] == AndOperand(e.right) + ts;
      AndLast(e.right, ts, mode);
      AndMore(e.left, ts', mode, Reassoc(e.right), ts);
    } else {
      ReassocKind(e);
      if e.Or? {
        AndFactor(e, ts, mode);
      } else {
        FactorBack(e, ts, mode);
      }
    }
  }

  /** An operand of an AND, followed by `&&` and an AND expression that is read back as y. */
  lemma {:induction false} AndMore(e: Expr, ts: seq<Token>, mode: Mode, y: Expr, rest: seq<Token>)
    requires Starts(ts, AndT) && ParseAnd(ts[1..], mode) == Parsed(Rewritten(y, mode), rest)
    ensures ParseAnd(AndOperand(e) + ts, mode) == Parsed(Rewritten(JoinAnd(Reassoc(e), y), mode), rest)
    decreases e, if e.Or? then 6 else 1
  {
    if e.And? {
      var ts' := [AndT] + AndOperand(e.right) + ts;
      assert AndOperand(e) + ts == AndOperand(e.left) + ts';
      assert ts'[1..] == AndOperand(e.right) + ts;
      AndMore(e.right, ts, mode, y, rest);
      AndMore(e.left, ts', mode, JoinAnd(Reassoc(e.right), y), rest);
      JoinAndAssoc(Reassoc(e.left), Reassoc(e.right), y);
    } else {
      ReassocKind(e);
      if e.Or? {
        AndFactor(e, ts, mode);
      } else {
        FactorBack(e, ts, mode);
      }
    }
  }

  /** The same two for the operands of an OR. */
  lemma {:induction false} OrLast(e: Expr, ts: seq<Token>, mode: Mode)
    requires Ends(ts) && !Starts(ts, AndT) && !Starts(ts, OrT)
    ensures ParseOr(OrOperand(e) + ts, mode) == Parsed(Rewritten(Reassoc(e), mode), ts)
    decreases e, if e.And? then 6 else 2
  {
    if e.Or? {
      var ts' := [OrT] + OrOperand(e.right) + ts;
      assert OrOperand(e) + ts == OrOperand(e.left) + ts';
      assert ts'[1..] == OrOperand(e.right) + ts;
      OrLast(e.right, ts, mode);
      OrMore(e.left, ts', mode, Reassoc(e.right), ts);
    } else if e.And? {
      OrFactor(e, ts, mode);
    } else {
      AndLast(e, ts, mode);
    }
  }

  lemma {:induction false} OrMore(e: Expr, ts: seq<Token>, mode: Mode, y: Expr, rest: seq<Token>)
    requires Starts(ts, OrT) && ParseOr(ts[1..], mode) == Parsed(Rewritten(y, mode), rest)
    ensures ParseOr(OrOperand(e) + ts, mode) == Parsed(Rewritten(JoinOr(Reassoc(e), y), mode), rest)
    decreases e, if e.And? then 6 else 2
  {
    if e.Or? {
      var ts' := [OrT] + OrOperand(e.right) + ts;
      assert OrOperand(e) + ts == OrOperand(e.left) + ts';
      assert ts'[1..] == OrOperand(e.right) + ts;
      OrMore(e.right, ts, mode, y, rest);
      OrMore(e.left, ts', mode, JoinOr(Reassoc(e.right), y), rest);
      JoinOrAssoc(Reassoc(e.left), Reassoc(e.right), y);
    } else {
      ReassocKind(e);
      if e.And? {
        OrFactor(e, ts, mode);
      } else {
        AndLast(e, ts, mode);
      }
    }
  }

  /** Whatever is printed is read back, with chains leaning to the right; what follows is left. */
  lemma {:induction false} ExprBack(e: Expr, ts: seq<Token>, mode: Mode)
    requires Ends(ts) && !Starts(ts, AndT) && !Starts(ts, OrT)
    ensures ParseOr(Print(e) + ts, mode) == Parsed(Rewritten(Reassoc(e), mode), ts)
    decreases e, 3
  {
    if e.Or? {
      OrLast(e, ts, mode);
    } else {
      AndLast(e, ts, mode);
    }
  }

  // ---------------------------------------------------------------- main results

  /** Parsing what was printed, to the end of the tokens. */
  lemma RoundTrip(e: Expr, mode: Mode)
    ensures ParseOr(Print(e), mode) == Parsed(Rewritten(Reassoc(e), mode), [])
  {
    assert Print(e) + [] == Print(e);
    ExprBack(e, [], mode);
  }

  lemma {:induction false} JoinValue(x: Expr, y: Expr, env: nat -> Tri)
    ensures Value(JoinAnd(x, y), env) == Min(Value(x, env), Value(y, env))
    ensures Value(JoinOr(x, y), env) == Max(Value(x, env), Value(y, env))
  {
    if x.And? || x.Or? {
      JoinValue(x.right, y, env);
    }
  }

  lemma {:induction false} ReassocValue(e: Expr, env: nat -> Tri)
    ensures Value(Reassoc(e), env) == Value(e, env)
  {
    match e
    case And(l, r) =>
      ReassocValue(l, env);
      ReassocValue(r, env);
      JoinValue(Reassoc(l), Reassoc(r), env);
    case Or(l, r) =>
      ReassocValue(l, env);
      ReassocValue(r, env);
      JoinValue(Reassoc(l), Reassoc(r), env);
    case Not(a) => ReassocValue(a, env);
    case _ =>
  }

  lemma {:induction false} RewrittenPlain(e: Expr)
    ensures Rewritten(e, Plain) == e
  {
    match e
    case And(l, r) =>
      RewrittenPlain(l);
      RewrittenPlain(r);
    case Or(l, r) =>
      RewrittenPlain(l);
      RewrittenPlain(r);
    case Not(a) => RewrittenPlain(a);
    case _ =>
  }

  /** Reparsing keeps the value under every assignment. */
  lemma ReparseKeepsValue(e: Expr, env: nat -> Tri)
    ensures ParseOr(Print(e), Plain).Parsed? && ParseOr(Print(e), Plain).rest == []
    ensures Value(ParseOr(Print(e), Plain).e, env) == Value(e, env)
  {
    RoundTrip(e, Plain);
    RewrittenPlain(Reassoc(e));
    ReassocValue(e, env);
  }

  /** No left operand repeats the operator above it. */
  predicate RightNested(e: Expr) {
    match e
    case And(l, r) => !l.And? && RightNested(l) && RightNested(r)
    case Or(l, r) => !l.Or? && RightNested(l) && RightNested(r)
    case Not(a) => RightNested(a)
    case _ => true
  }

  lemma {:induction false} JoinNested(x: Expr, y: Expr)
    requires RightNested(x) && RightNested(y)
    ensures RightNested(JoinAnd(x, y)) && RightNested(JoinOr(x, y))
  {
    if x.And? || x.Or? {
      JoinNested(x.right, y);
    }
  }

  lemma {:induction false} ReassocNested(e: Expr)
    ensures RightNested(Reassoc(e))
  {
    match e
    case And(l, r) =>
      ReassocNested(l);
      ReassocNested(r);
      JoinNested(Reassoc(l), Reassoc(r));
    case Or(l, r) =>
      ReassocNested(l);
      ReassocNested(r);
      JoinNested(Reassoc(l), Reassoc(r));
    case Not(a) => ReassocNested(a);
    case _ =>
  }

  lemma {:induction false} NestedStays(e: Expr)
    requires RightNested(e)
    ensures Reassoc(e) == e
  {
    match e
    case And(l, r) =>
      NestedStays(l);
      NestedStays(r);
    case Or(l, r) =>
      NestedStays(l);
      NestedStays(r);
    case Not(a) => NestedStays(a);
    case _ =>
  }

  /** Reparsing gives back the same tree exactly when no left operand repeats its parent's
      operator. */
  lemma SameTreeExactly(e: Expr)
    ensures ParseOr(Print(e), Plain) == Parsed(e, []) <==> RightNested(e)
  {
    RoundTrip(e, Plain);
    RewrittenPlain(Reassoc(e));
    ReassocNested(e);
    if RightNested(e) {
      NestedStays(e);
    }
  }
}
