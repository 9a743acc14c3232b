/** Kconfig expressions (opensbi-1.2/scripts/Kconfiglib/kconfiglib.py). */
module KconfigExpr {
  /** n, m and y. */
  type Tri = x: int | 0 <= x <= 2

  /** What stands at the leaves: a symbol by number, or a constant. */
  datatype Item = Symbol(id: nat) | Constant(tri: Tri)

  datatype Relation = Equal | Unequal | Less | LessEqual | Greater | GreaterEqual

  datatype Expr =
    | Leaf(item: Item)
    | And(left: Expr, right: Expr)
    | Or(left: Expr, right: Expr)
    | Not(arg: Expr)
    | Rel(op: Relation, a: Item, b: Item)

  function Min(a: Tri, b: Tri): Tri { if a <= b then a else b }
  function Max(a: Tri, b: Tri): Tri { if a >= b then a else b }

  /** Relations count n, m, y as 0, 1, 2 and answer n or y. */
  function Compare(op: Relation, a: Tri, b: Tri): Tri {
    var holds := match op
      case Equal => a == b
      case Unequal => a != b
      case Less => a < b
      case LessEqual => a <= b
      case Greater => a > b
      case GreaterEqual => a >= b;
    if holds then 2 else 0
  }

  function ItemValue(i: Item, env: nat -> Tri): Tri {
    match i case Symbol(s) => env(s) case Constant(t) => t
  }

  /** The meaning of an expression: minimum, maximum, complement and comparison. */
  function Value(e: Expr, env: nat -> Tri): Tri {
    match e
    case Leaf(i) => ItemValue(i, env)
    case And(l, r) => Min(Value(l, env), Value(r, env))
    case Or(l, r) => Max(Value(l, env), Value(r, env))
    case Not(a) => 2 - Value(a, env)
    case Rel(op, a, b) => Compare(op, ItemValue(a, env), ItemValue(b, env))
  }

  function ItemSymbols(i: Item): set<nat> {
    match i case Symbol(s) => {s} case Constant(_) => {}
  }

  /** The symbols an expression mentions. */
  function Symbols(e: Expr): set<nat> {
    match e
    case Leaf(i) => ItemSymbols(i)
    case And(l, r) => Symbols(l) + Symbols(r)
    case Or(l, r) => Symbols(l) + Symbols(r)
    case Not(a) => Symbols(a)
    case Rel(_, a, b) => ItemSymbols(a) + ItemSymbols(b)
  }
}
