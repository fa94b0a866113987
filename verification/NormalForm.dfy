/** `expr_transform`: push negation down to symbols and drop comparisons on booleans. */
module NormalForm {
  import opened Exprs

  /** Termination measure: a negation doubles, so De Morgan steps shrink it. */
  function Weight(e: Expr): nat
    ensures Weight(e) >= 1
  {
    match e
    case Sym(_) => 1
    case Equal(_, _) => 2
    case Unequal(_, _) => 2
    case Not(a) => 2 * Weight(a)
    case And(l, r) => 1 + Weight(l) + Weight(r)
    case Or(l, r) => 1 + Weight(l) + Weight(r)
  }

  lemma DeMorganShrinks(x: Expr, y: Expr)
    ensures Weight(And(Not(x), Not(y))) < Weight(Not(Or(x, y)))
    ensures Weight(Or(Not(x), Not(y))) < Weight(Not(And(x, y)))
  {
    assert Weight(Not(x)) == 2 * Weight(x) && Weight(Not(y)) == 2 * Weight(y);
    assert Weight(Or(x, y)) == 1 + Weight(x) + Weight(y) == Weight(And(x, y));
  }

  /** The children are rewritten first; a De Morgan step hands its result to the whole pass again. */
  function Transform(e: Expr): (r: Expr)
    ensures Weight(r) <= Weight(e)
    decreases Weight(e)
  {
    match e
    case Sym(_) => e
    case And(l, r) => And(Transform(l), Transform(r))
    case Or(l, r) => Or(Transform(l), Transform(r))
    case Equal(a, b) =>
      if a.stype() != Boolean then e
      else if b == NoSym then Not(Sym(a))
      else if b == ModSym then Sym(NoSym)
      else if b == YesSym then Sym(a)
      else e
    case Unequal(a, b) =>
      if a.stype() != Boolean then e
      else if b == NoSym then Sym(a)
      else if b == ModSym then Sym(YesSym)
      else if b == YesSym then Not(Sym(a))
      else e
    case Not(a) =>
      match Transform(a)
      case Not(x) => Transform(x)
      case Equal(x, y) => Unequal(x, y)
      case Unequal(x, y) => Equal(x, y)
      case Or(x, y) => DeMorganShrinks(x, y); Transform(And(Not(x), Not(y)))
      case And(x, y) => DeMorganShrinks(x, y); Transform(Or(Not(x), Not(y)))
      case Sym(s) =>
        if s == YesSym then Sym(NoSym)
        else if s == ModSym then Sym(ModSym)
        else if s == NoSym then Sym(YesSym)
        else Not(Sym(s))
  }

  lemma {:induction false} TransformKeepsValue(e: Expr, v: Valuation)
    requires WellFormed(v)
    ensures Eval(Transform(e), v) == Eval(e, v)
    decreases Weight(e)
  {
    match e
    case Sym(_) =>
    case Equal(_, _) =>
    case Unequal(_, _) =>
    case And(l, r) => TransformKeepsValue(l, v); TransformKeepsValue(r, v);
    case Or(l, r) => TransformKeepsValue(l, v); TransformKeepsValue(r, v);
    case Not(a) =>
      TransformKeepsValue(a, v);
      match Transform(a)
      case Not(x) => TransformKeepsValue(x, v);
      case Or(x, y) => DeMorganShrinks(x, y); TransformKeepsValue(And(Not(x), Not(y)), v);
      case And(x, y) => DeMorganShrinks(x, y); TransformKeepsValue(Or(Not(x), Not(y)), v);
      case _ =>
  }

  lemma {:induction false} TransformSymbols(e: Expr)
    ensures Symbols(Transform(e)) <= WithConstants(Symbols(e))
    decreases Weight(e)
  {
    match e
    case Sym(_) =>
    case Equal(_, _) =>
    case Unequal(_, _) =>
    case And(l, r) => TransformSymbols(l); TransformSymbols(r);
    case Or(l, r) => TransformSymbols(l); TransformSymbols(r);
    case Not(a) =>
      TransformSymbols(a);
      match Transform(a)
      case Not(x) => TransformSymbols(x);
      case Or(x, y) => DeMorganShrinks(x, y); TransformSymbols(And(Not(x), Not(y)));
      case And(x, y) => DeMorganShrinks(x, y); TransformSymbols(Or(Not(x), Not(y)));
      case _ =>
  }

  /** Every negation met through `&&` and `||` stands directly over a symbol. */
  predicate SimpleNots(e: Expr) {
    match e
    case Not(a) => a.Sym?
    case And(l, r) => SimpleNots(l) && SimpleNots(r)
    case Or(l, r) => SimpleNots(l) && SimpleNots(r)
    case _ => true
  }

  lemma {:induction false} NormalSimpleNots(e: Expr)
    requires Normal(e)
    ensures SimpleNots(e)
  {
    match e
    case And(l, r) => NormalSimpleNots(l); NormalSimpleNots(r);
    case Or(l, r) => NormalSimpleNots(l); NormalSimpleNots(r);
    case _ =>
  }

  /** Negation stands only over a symbol that is not one of the three constants, and no
      comparison tests a boolean against `y`, `m` or `n`. */
  predicate Normal(e: Expr) {
    match e
    case Sym(_) => true
    case Equal(a, b) => !(a.stype() == Boolean && IsTriConstant(b))
    case Unequal(a, b) => !(a.stype() == Boolean && IsTriConstant(b))
    case And(l, r) => Normal(l) && Normal(r)
    case Or(l, r) => Normal(l) && Normal(r)
    case Not(a) => a.Sym? && !IsTriConstant(a.sym)
  }

  lemma {:induction false} TransformIsNormal(e: Expr)
    ensures Normal(Transform(e))
    decreases Weight(e)
  {
    match e
    case Sym(_) =>
    case Equal(_, _) =>
    case Unequal(_, _) =>
    case And(l, r) => TransformIsNormal(l); TransformIsNormal(r);
    case Or(l, r) => TransformIsNormal(l); TransformIsNormal(r);
    case Not(a) =>
      TransformIsNormal(a);
      match Transform(a)
      case Not(x) => TransformIsNormal(x);
      case Or(x, y) => DeMorganShrinks(x, y); TransformIsNormal(And(Not(x), Not(y)));
      case And(x, y) => DeMorganShrinks(x, y); TransformIsNormal(Or(Not(x), Not(y)));
      case _ =>
  }

  lemma {:induction false} NormalIsFixed(e: Expr)
    requires Normal(e)
    ensures Transform(e) == e
  {
    match e
    case And(l, r) => NormalIsFixed(l); NormalIsFixed(r);
    case Or(l, r) => NormalIsFixed(l); NormalIsFixed(r);
    case _ =>
  }

  /** The image of the pass is exactly its set of fixed points, which is the normal forms. */
  lemma TransformIdempotent(e: Expr)
    ensures Transform(Transform(e)) == Transform(e)
    ensures Transform(e) == e <==> Normal(e)
  {
    TransformIsNormal(e);
    NormalIsFixed(Transform(e));
    if Normal(e) { NormalIsFixed(e); }
  }
}
