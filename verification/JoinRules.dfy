/** `expr_join_or` and `expr_join_and`: merge two alternatives, or two conditions, into one. */
module JoinRules {
  import opened Options
  import opened Exprs
  import opened EqElim
  import opened NormalForm
  import opened EqReflexive

  /** The symbol an atom is about. The left operand may be a negated comparison, the right one may not. */
  function Subject(e: Expr, isLeft: bool): Option<Symbol> {
    match e
    case Sym(s) => Some(s)
    case Equal(a, _) => Some(a)
    case Unequal(a, _) => Some(a)
    case Not(Sym(s)) => Some(s)
    case Not(Equal(a, _)) => if isLeft then Some(a) else None
    case Not(Unequal(a, _)) => if isLeft then Some(a) else None
    case _ => None
  }

  /** `{a, b}` in either order. */
  predicate Pair(x: Symbol, y: Symbol, a: Symbol, b: Symbol) {
    (x == a && y == b) || (x == b && y == a)
  }

  function JoinOr(e1: Expr, e2: Expr): Option<Expr> {
    if ExprEq(e1, e2) then Some(e1)
    else
      var s1, s2 := Subject(e1, true), Subject(e2, false);
      if s1.None? || s2.None? || s1 != s2 || !HasTruth(s1.value) then None
      else JoinOrAtoms(s1.value, e1, e2)
  }

  function JoinOrAtoms(a: Symbol, e1: Expr, e2: Expr): Option<Expr> {
    if a.stype() == TristateType && e1.Equal? && e2.Equal? && Pair(e1.rhs, e2.rhs, YesSym, ModSym) then
      Some(Unequal(a, NoSym))
    else if a.stype() == TristateType && e1.Equal? && e2.Equal? && Pair(e1.rhs, e2.rhs, YesSym, NoSym) then
      Some(Unequal(a, ModSym))
    else if a.stype() == TristateType && e1.Equal? && e2.Equal? && Pair(e1.rhs, e2.rhs, ModSym, NoSym) then
      Some(Unequal(a, YesSym))
    else if a.stype() == Boolean &&
            ((e1.Not? && e1.arg.Sym? && e2.Sym?) || (e2.Not? && e2.arg.Sym? && e1.Sym?)) then
      Some(Sym(YesSym))
    else None
  }

  function JoinAnd(e1: Expr, e2: Expr): Option<Expr> {
    if ExprEq(e1, e2) then Some(e1)
    else
      var s1, s2 := Subject(e1, true), Subject(e2, false);
      if s1.None? || s2.None? || s1 != s2 || !HasTruth(s1.value) then None
      else JoinAndAtoms(s1.value, e1, e2)
  }

  /** One operand is the bare symbol and the other compares it with `c`. */
  predicate BareAndEqual(e1: Expr, e2: Expr, c: Symbol) {
    (e1.Sym? && e2.Equal? && e2.rhs == c) || (e2.Sym? && e1.Equal? && e1.rhs == c)
  }

  predicate BareAndUnequal(e1: Expr, e2: Expr, c: Symbol) {
    (e1.Sym? && e2.Unequal? && e2.rhs == c) || (e2.Sym? && e1.Unequal? && e1.rhs == c)
  }

  function JoinAndAtoms(a: Symbol, e1: Expr, e2: Expr): Option<Expr> {
    if BareAndEqual(e1, e2, YesSym) then Some(Equal(a, YesSym))
    else if BareAndUnequal(e1, e2, NoSym) then Some(Sym(a))
    else if BareAndUnequal(e1, e2, ModSym) then Some(Equal(a, YesSym))
    else if a.stype() != TristateType then None
    else JoinAndCompared(a, e1, e2)
  }

  /** Two comparisons of a tristate symbol with constants. */
  function JoinAndCompared(a: Symbol, e1: Expr, e2: Expr): Option<Expr> {
    if e1.Equal? && e2.Unequal? && e1.rhs.Constant? && e2.rhs.Constant? then
      Some(if e1.rhs != e2.rhs then Equal(a, e1.rhs) else Sym(NoSym))
    else if e1.Unequal? && e2.Equal? && e1.rhs.Constant? && e2.rhs.Constant? then
      Some(if e1.rhs != e2.rhs then Equal(a, e2.rhs) else Sym(NoSym))
    else if e1.Unequal? && e2.Unequal? && Pair(e1.rhs, e2.rhs, YesSym, NoSym) then Some(Equal(a, ModSym))
    else if e1.Unequal? && e2.Unequal? && Pair(e1.rhs, e2.rhs, YesSym, ModSym) then Some(Equal(a, NoSym))
    else if e1.Unequal? && e2.Unequal? && Pair(e1.rhs, e2.rhs, ModSym, NoSym) then Some(Equal(a, YesSym))
    else None
  }

  function Join(t: Op, e1: Expr, e2: Expr): Option<Expr> {
    if t == AndOp then JoinAnd(e1, e2) else JoinOr(e1, e2)
  }

  lemma JoinOrAtomsSound(a: Symbol, e1: Expr, e2: Expr, v: Valuation)
    requires WellFormed(v) && HasTruth(a)
    requires Subject(e1, true) == Some(a) == Subject(e2, false)
    requires JoinOrAtoms(a, e1, e2).Some?
    ensures Eval(JoinOrAtoms(a, e1, e2).value, v) == OrT(Eval(e1, v), Eval(e2, v))
  {
    assert v.str(a) == TriName(v.tri(a));
    assert v.str(YesSym) == "y" && v.str(ModSym) == "m" && v.str(NoSym) == "n";
  }

  lemma JoinAndComparedSound(a: Symbol, e1: Expr, e2: Expr, v: Valuation)
    requires WellFormed(v) && HasTruth(a)
    requires Subject(e1, true) == Some(a) == Subject(e2, false)
    requires JoinAndCompared(a, e1, e2).Some?
    ensures Eval(JoinAndCompared(a, e1, e2).value, v) == AndT(Eval(e1, v), Eval(e2, v))
  {
    assert v.str(a) == TriName(v.tri(a));
    assert v.str(YesSym) == "y" && v.str(ModSym) == "m" && v.str(NoSym) == "n";
  }

  lemma JoinAndAtomsSound(a: Symbol, e1: Expr, e2: Expr, v: Valuation)
    requires WellFormed(v) && HasTruth(a)
    requires Subject(e1, true) == Some(a) == Subject(e2, false)
    requires JoinAndAtoms(a, e1, e2).Some?
    ensures Eval(JoinAndAtoms(a, e1, e2).value, v) == AndT(Eval(e1, v), Eval(e2, v))
  {
    if BareAndEqual(e1, e2, YesSym) || BareAndUnequal(e1, e2, NoSym) || BareAndUnequal(e1, e2, ModSym) {
      assert v.str(a) == TriName(v.tri(a));
      assert v.str(YesSym) == "y" && v.str(ModSym) == "m" && v.str(NoSym) == "n";
    } else {
      JoinAndComparedSound(a, e1, e2, v);
    }
  }

  /** A merge has the value of the pair it replaces, under every three-valued valuation. */
  lemma JoinSound(t: Op, e1: Expr, e2: Expr, v: Valuation)
    requires WellFormed(v)
    requires Join(t, e1, e2).Some?
    ensures Eval(Join(t, e1, e2).value, v) == Comb(t, Eval(e1, v), Eval(e2, v))
  {
    if ExprEq(e1, e2) {
      ExprEqSound(e1, e2, v);
    } else if t == AndOp {
      JoinAndAtomsSound(Subject(e1, true).value, e1, e2, v);
    } else {
      JoinOrAtomsSound(Subject(e1, true).value, e1, e2, v);
    }
  }

  lemma JoinSymbols(t: Op, e1: Expr, e2: Expr)
    requires Join(t, e1, e2).Some?
    ensures Symbols(Join(t, e1, e2).value) <= WithConstants(Symbols(e1) + Symbols(e2))
  {
    if !ExprEq(e1, e2) {
      SubjectSymbols(e1, true);
    }
  }

  lemma SubjectSymbols(e: Expr, isLeft: bool)
    ensures Subject(e, isLeft).Some? ==> Subject(e, isLeft).value in Symbols(e)
  {
    if e.Not? { assert Symbols(e) == Symbols(e.arg); }
  }

  /** A merge never grows and never creates a node of the type being merged. */
  lemma JoinShape(t: Op, e1: Expr, e2: Expr)
    requires Join(t, e1, e2).Some? && !IsOp(e1, t)
    ensures var r := Join(t, e1, e2).value;
            && Size(r) + 1 <= Size(e1) + Size(e2)
            && !IsOp(r, t)
            && (SimpleNots(e1) && SimpleNots(e2) ==> SimpleNots(r))
  {
  }

  /* ---------- the rules, one by one ---------- */

  /** In either order the two become `r`. */
  predicate Merges(t: Op, e1: Expr, e2: Expr, r: Expr) {
    Join(t, e1, e2) == Some(r) && Join(t, e2, e1) == Some(r)
  }

  /** What is equal to itself is merged with itself, whatever it is. */
  lemma EqualMerges(t: Op, e1: Expr, e2: Expr)
    ensures ExprEq(e1, e2) ==> Join(t, e1, e2) == Some(e1)
    ensures Merges(t, e1, e1, e1)
  {
    ExprEqReflexive(e1);
  }

  /** `||`: two of the three values of a tristate leave the third out; a boolean or its negation is always set. */
  lemma OrRules(a: Symbol)
    ensures a.stype() == TristateType ==>
              && Merges(OrOp, Equal(a, YesSym), Equal(a, ModSym), Unequal(a, NoSym))
              && Merges(OrOp, Equal(a, YesSym), Equal(a, NoSym), Unequal(a, ModSym))
              && Merges(OrOp, Equal(a, ModSym), Equal(a, NoSym), Unequal(a, YesSym))
    ensures a.stype() == Boolean ==> Merges(OrOp, Sym(a), Not(Sym(a)), Sym(YesSym))
  {
  }

  /** `&&` with the symbol itself, for booleans and tristates. */
  lemma AndSymbolRules(a: Symbol)
    requires HasTruth(a)
    ensures Merges(AndOp, Sym(a), Equal(a, YesSym), Equal(a, YesSym))
    ensures Merges(AndOp, Sym(a), Unequal(a, NoSym), Sym(a))
    ensures Merges(AndOp, Sym(a), Unequal(a, ModSym), Equal(a, YesSym))
  {
  }

  /** `&&` of two comparisons of a tristate. */
  lemma AndCompareRules(a: Symbol, b: Symbol, c: Symbol)
    requires a.stype() == TristateType
    ensures Merges(AndOp, Unequal(a, YesSym), Unequal(a, NoSym), Equal(a, ModSym))
    ensures Merges(AndOp, Unequal(a, YesSym), Unequal(a, ModSym), Equal(a, NoSym))
    ensures Merges(AndOp, Unequal(a, ModSym), Unequal(a, NoSym), Equal(a, YesSym))
    ensures b.Constant? && c.Constant? ==>
              Merges(AndOp, Equal(a, b), Unequal(a, c), if b == c then Sym(NoSym) else Equal(a, b))
  {
  }

  /** Nothing else is merged: about different symbols, or symbols without a truth value, only equal expressions are. */
  lemma OnlyAboutOneSymbol(t: Op, e1: Expr, e2: Expr)
    requires Join(t, e1, e2).Some?
    ensures ExprEq(e1, e2) ||
            (exists a :: a in Symbols(e1) && a in Symbols(e2) && HasTruth(a) && !IsConnective(e1) && !IsConnective(e2))
  {
    if !ExprEq(e1, e2) {
      SubjectSymbols(e1, true);
      SubjectSymbols(e2, false);
    }
  }
}
