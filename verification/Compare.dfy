/** `expr_trans_compare`, `expr_trans_bool`, `expr_contains_symbol` and `expr_depends_symbol`. */
module Compare {
  import opened Options
  import opened Exprs
  import opened EqElim
  import opened NormalForm
  import opened Paths
  import opened Dups

  /* ---------- expr_trans_compare ---------- */

  datatype Cmp = IsEq | IsNeq

  function Flip(c: Cmp): Cmp {
    if c == IsEq then IsNeq else IsEq
  }

  function NegateIf(c: Cmp, e: Expr): Expr {
    if c == IsNeq then Not(e) else e
  }

  function Compare(c: Cmp, a: Symbol, b: Symbol): Expr {
    if c == IsEq then Equal(a, b) else Unequal(a, b)
  }

  /** `e = sym` or `e != sym` as an expression; `None` where the source returns NULL. */
  function TransCompare(e: Expr, c: Cmp, sym: Symbol): Option<Expr> {
    match e
    case And(l, r) =>
      var a, b := TransCompare(l, IsEq, sym), TransCompare(r, IsEq, sym);
      if sym == YesSym && a.Some? && b.Some? then Some(NegateIf(c, And(a.value, b.value)))
      else if sym == NoSym && a.Some? && b.Some? then Some(NegateIf(c, Or(a.value, b.value)))
      else Some(NegateIf(c, e))
    case Or(l, r) =>
      var a, b := TransCompare(l, IsEq, sym), TransCompare(r, IsEq, sym);
      if sym == YesSym && a.Some? && b.Some? then Some(NegateIf(c, Or(a.value, b.value)))
      else if sym == NoSym && a.Some? && b.Some? then Some(NegateIf(c, And(a.value, b.value)))
      else Some(NegateIf(c, e))
    case Not(a) => TransCompare(a, Flip(c), sym)
    case Sym(s) => Some(Compare(c, s, sym))
    case _ =>
      if sym == ModSym then Some(Sym(if c == IsEq then NoSym else YesSym))
      else if sym == YesSym then Some(NegateIf(c, e))
      else if sym == NoSym then Some(NegateIf(Flip(c), e))
      else None
  }

  /** A missing expression is compared as if it were `sym` itself. */
  function TransCompareOpt(e: Option<Expr>, c: Cmp, sym: Symbol): Option<Expr> {
    match e
    case None => Some(NegateIf(c, Sym(sym)))
    case Some(x) => TransCompare(x, c, sym)
  }

  lemma {:induction false} TransCompareDefined(e: Expr, c: Cmp, sym: Symbol)
    requires sym == YesSym || sym == NoSym
    ensures TransCompare(e, c, sym).Some?
  {
    match e
    case And(l, r) => TransCompareDefined(l, IsEq, sym); TransCompareDefined(r, IsEq, sym);
    case Or(l, r) => TransCompareDefined(l, IsEq, sym); TransCompareDefined(r, IsEq, sym);
    case Not(a) => TransCompareDefined(a, Flip(c), sym);
    case _ =>
  }

  /** Bare symbols are ones that have a truth value; an undefined symbol reads as its own name. */
  predicate Typed(e: Expr) {
    match e
    case Sym(s) => HasTruth(s) || IsTriConstant(s)
    case Not(a) => Typed(a)
    case And(l, r) => Typed(l) && Typed(r)
    case Or(l, r) => Typed(l) && Typed(r)
    case _ => true
  }

  /** No negated subterm has the value `m`. */
  predicate NegationsDefinite(e: Expr, v: Valuation) {
    match e
    case Not(a) => Eval(a, v) != Mod && NegationsDefinite(a, v)
    case And(l, r) => NegationsDefinite(l, v) && NegationsDefinite(r, v)
    case Or(l, r) => NegationsDefinite(l, v) && NegationsDefinite(r, v)
    case _ => true
  }

  /** What the comparison should say. */
  function Holds(e: Expr, c: Cmp, sym: Symbol, v: Valuation): Tristate {
    Truth((c == IsEq) == (Eval(e, v) == v.tri(sym)))
  }

  predicate ComparesRight(e: Expr, c: Cmp, sym: Symbol, v: Valuation) {
    TransCompare(e, c, sym).Some? && Eval(TransCompare(e, c, sym).value, v) == Holds(e, c, sym, v)
  }

  /** What `e = sym` comes to once every symbol has been compared by itself: a formula of two-valued logic. */
  predicate Reads(e: Expr, sym: Symbol, v: Valuation) {
    match e
    case And(l, r) =>
      if sym == YesSym then Reads(l, sym, v) && Reads(r, sym, v) else Reads(l, sym, v) || Reads(r, sym, v)
    case Or(l, r) =>
      if sym == YesSym then Reads(l, sym, v) || Reads(r, sym, v) else Reads(l, sym, v) && Reads(r, sym, v)
    case Not(a) => !Reads(a, sym, v)
    case _ => Eval(e, v) == v.tri(sym)
  }

  /** The rewritten comparison says exactly that, whatever the valuation. */
  lemma {:induction false} TransCompareReads(e: Expr, c: Cmp, sym: Symbol, v: Valuation)
    requires (sym == YesSym || sym == NoSym) && WellFormed(v) && Typed(e)
    ensures TransCompare(e, c, sym).Some?
    ensures Eval(TransCompare(e, c, sym).value, v) == Truth((c == IsEq) == Reads(e, sym, v))
  {
    match e
    case And(l, r) =>
      TransCompareReads(l, IsEq, sym, v);
      TransCompareReads(r, IsEq, sym, v);
      ConnectiveReads(e, c, sym, v);
    case Or(l, r) =>
      TransCompareReads(l, IsEq, sym, v);
      TransCompareReads(r, IsEq, sym, v);
      ConnectiveReads(e, c, sym, v);
    case Not(a) =>
      TransCompareReads(a, Flip(c), sym, v);
    case Sym(s) => BareReads(s, c, sym, v);
    case _ =>
  }

  lemma ConnectiveReads(e: Expr, c: Cmp, sym: Symbol, v: Valuation)
    requires (sym == YesSym || sym == NoSym) && IsConnective(e)
    requires TransCompare(e.left, IsEq, sym).Some? && TransCompare(e.right, IsEq, sym).Some?
    requires Eval(TransCompare(e.left, IsEq, sym).value, v) == Truth(Reads(e.left, sym, v))
    requires Eval(TransCompare(e.right, IsEq, sym).value, v) == Truth(Reads(e.right, sym, v))
    ensures TransCompare(e, c, sym).Some?
    ensures Eval(TransCompare(e, c, sym).value, v) == Truth((c == IsEq) == Reads(e, sym, v))
  {
    var a, b := TransCompare(e.left, IsEq, sym).value, TransCompare(e.right, IsEq, sym).value;
    var t := if (sym == YesSym) == e.And? then And(a, b) else Or(a, b);
    assert TransCompare(e, c, sym) == Some(NegateIf(c, t));
    assert Eval(t, v) == Truth(Reads(e, sym, v));
  }

  lemma BareReads(s: Symbol, c: Cmp, sym: Symbol, v: Valuation)
    requires (sym == YesSym || sym == NoSym) && WellFormed(v) && (HasTruth(s) || IsTriConstant(s))
    ensures Eval(Compare(c, s, sym), v) == Truth((c == IsEq) == (v.tri(s) == v.tri(sym)))
  {
    assert v.str(YesSym) == "y" && v.str(ModSym) == "m" && v.str(NoSym) == "n";
    assert v.str(s) == TriName(v.tri(s));
  }

  lemma {:induction false} ReadsDefinite(e: Expr, sym: Symbol, v: Valuation)
    requires (sym == YesSym || sym == NoSym) && WellFormed(v) && NegationsDefinite(e, v)
    ensures Reads(e, sym, v) <==> Eval(e, v) == v.tri(sym)
  {
    match e
    case And(l, r) => ReadsDefinite(l, sym, v); ReadsDefinite(r, sym, v);
    case Or(l, r) => ReadsDefinite(l, sym, v); ReadsDefinite(r, sym, v);
    case Not(a) => ReadsDefinite(a, sym, v);
    case _ =>
  }

  lemma TransCompareCorrect(e: Expr, c: Cmp, sym: Symbol, v: Valuation)
    requires (sym == YesSym || sym == NoSym) && WellFormed(v) && Typed(e) && NegationsDefinite(e, v)
    ensures ComparesRight(e, c, sym, v)
  {
    TransCompareReads(e, c, sym, v);
    ReadsDefinite(e, sym, v);
  }

  /** The `!` case swaps `=` and `!=`: right exactly when the negated term is not `m`. */
  lemma NegationCompare(a: Expr, c: Cmp, sym: Symbol, v: Valuation)
    requires (sym == YesSym || sym == NoSym) && WellFormed(v) && Typed(a) && NegationsDefinite(a, v)
    ensures ComparesRight(Not(a), c, sym, v) <==> Eval(a, v) != Mod
  {
    TransCompareCorrect(a, Flip(c), sym, v);
  }

  /* ---------- expr_trans_bool ---------- */

  function TransBool(e: Expr): Expr {
    match e
    case And(l, r) => And(TransBool(l), TransBool(r))
    case Or(l, r) => Or(TransBool(l), TransBool(r))
    case Not(a) => Not(TransBool(a))
    case Unequal(a, b) => if a.stype() == TristateType && b == NoSym then Sym(a) else e
    case _ => e
  }

  lemma {:induction false} TransBoolKeepsPromoted(e: Expr, v: Valuation)
    requires WellFormed(v) && SimpleNots(e)
    ensures Promote(Eval(TransBool(e), v)) == Promote(Eval(e, v))
  {
    match e
    case And(l, r) => TransBoolKeepsPromoted(l, v); TransBoolKeepsPromoted(r, v);
    case Or(l, r) => TransBoolKeepsPromoted(l, v); TransBoolKeepsPromoted(r, v);
    case Unequal(a, b) => assert v.str(NoSym) == "n";
    case _ =>
  }

  /** The condition on negations is needed: `!(FOO != n)` is kept exactly when FOO is not `m`. The program never
      gets there, since it only passes expressions that `expr_transform` has been over. */
  lemma TransBoolUnderNot(a: Symbol, v: Valuation)
    requires WellFormed(v) && a.stype() == TristateType
    ensures var e := Not(Unequal(a, NoSym));
            Promote(Eval(TransBool(e), v)) == Promote(Eval(e, v)) <==> v.tri(a) != Mod
  {
    assert v.str(NoSym) == "n" && v.str(a) == TriName(v.tri(a));
    assert TransBool(Unequal(a, NoSym)) == Sym(a);
    assert TransBool(Not(Unequal(a, NoSym))) == Not(Sym(a));
    assert Eval(Unequal(a, NoSym), v) == Truth(v.tri(a) != No);
  }

  /** Only the constant `n` can disappear. */
  lemma {:induction false} TransBoolSymbols(e: Expr)
    ensures Symbols(TransBool(e)) <= Symbols(e) <= Symbols(TransBool(e)) + {NoSym}
  {
    match e
    case And(l, r) => TransBoolSymbols(l); TransBoolSymbols(r);
    case Or(l, r) => TransBoolSymbols(l); TransBoolSymbols(r);
    case Not(a) => TransBoolSymbols(a);
    case _ =>
  }

  /** Nowhere, through `&&`, `||` and `!`, is a tristate compared with `!= n`. */
  predicate NoNonzero(e: Expr) {
    match e
    case And(l, r) => NoNonzero(l) && NoNonzero(r)
    case Or(l, r) => NoNonzero(l) && NoNonzero(r)
    case Not(a) => NoNonzero(a)
    case Unequal(a, b) => !(a.stype() == TristateType && b == NoSym)
    case _ => true
  }

  /** The rewrite removes exactly those comparisons. */
  lemma {:induction false} TransBoolExact(e: Expr)
    ensures NoNonzero(TransBool(e)) && (TransBool(e) == e <==> NoNonzero(e))
  {
    match e
    case And(l, r) => TransBoolExact(l); TransBoolExact(r);
    case Or(l, r) => TransBoolExact(l); TransBoolExact(r);
    case Not(a) => TransBoolExact(a);
    case _ =>
  }

  ghost predicate NoNonzeroOpt(e: Option<Expr>) {
    e.None? || NoNonzero(e.value)
  }

  lemma {:induction false} TransBoolSimpleNots(e: Expr)
    requires SimpleNots(e)
    ensures SimpleNots(TransBool(e))
  {
    match e
    case And(l, r) => TransBoolSimpleNots(l); TransBoolSimpleNots(r);
    case Or(l, r) => TransBoolSimpleNots(l); TransBoolSimpleNots(r);
    case _ =>
  }

  /** `expr_alloc_and` */
  function AllocAnd(a: Option<Expr>, b: Option<Expr>): Option<Expr> {
    if a.None? then b else if b.None? then a else Some(And(a.value, b.value))
  }

  function TransformOpt(e: Option<Expr>): Option<Expr> {
    if e.None? then None else Some(Transform(e.value))
  }

  ghost predicate SimpleOpt(e: Option<Expr>) {
    e.None? || SimpleNots(e.value)
  }

  lemma AllocAndFacts(base: Option<Expr>, dep: Option<Expr>)
    requires SimpleOpt(base)
    ensures var c := AllocAnd(base, TransformOpt(dep));
            && SimpleOpt(c) && (c.None? <==> base.None? && dep.None?)
            && forall v: Valuation :: WellFormed(v) ==> EvalOpt(c, v) == AndT(EvalOpt(base, v), EvalOpt(dep, v))
  {
    if dep.Some? {
      TransformIsNormal(dep.value);
      NormalSimpleNots(Transform(dep.value));
      forall v: Valuation | WellFormed(v) ensures Eval(Transform(dep.value), v) == Eval(dep.value, v) {
        TransformKeepsValue(dep.value, v);
      }
    }
  }

  /** What a dependency combined with an enclosing one means: the conjunction wherever that is not `m`;
      for a symbol that is not tristate, once `m` is promoted, which is how its visibility is read. */
  ghost predicate Combined(base: Option<Expr>, dep: Option<Expr>, transBool: bool, r: Option<Expr>) {
    forall v: Valuation :: WellFormed(v) ==>
      var both, got := AndT(EvalOpt(base, v), EvalOpt(dep, v)), EvalOpt(r, v);
      if transBool then both != Mod ==> Promote(got) == both else Refines(both, got)
  }

  /** Duplicate elimination would leave it as it is. */
  ghost predicate FixedOpt(e: Option<Expr>) {
    e.None? || (DupFree(e.value) && OpposeFree(e.value))
  }

  /** Every symbol of `a`, but for the constants, occurs in `b`. */
  predicate Keeps(a: Option<Expr>, b: Option<Expr>) {
    SymbolsOpt(a) <= WithConstants(SymbolsOpt(b))
  }

  lemma AllocAndSymbols(base: Option<Expr>, dep: Option<Expr>)
    ensures SymbolsOpt(AllocAnd(base, TransformOpt(dep))) <= WithConstants(SymbolsOpt(base) + SymbolsOpt(dep))
  {
    if dep.Some? { TransformSymbols(dep.value); }
  }

  /** The dependency `menu_finalize` gives to an entry or property: its own below that of what encloses it. */
  method CombineDep(base: Option<Expr>, dep: Option<Expr>, transBool: bool) returns (r: Option<Expr>)
    requires SimpleOpt(base)
    ensures SimpleOpt(r) && (r.None? <==> base.None? && dep.None?)
    ensures Combined(base, dep, transBool, r)
    ensures SymbolsOpt(r) <= WithConstants(SymbolsOpt(base) + SymbolsOpt(dep))
    ensures if transBool then NoNonzeroOpt(r) else FixedOpt(r)
    ensures dep.None? && FixedOpt(base) ==> Keeps(base, r)
  {
    AllocAndFacts(base, dep);
    AllocAndSymbols(base, dep);
    var c := AllocAnd(base, TransformOpt(dep));
    if c.None? {
      return None;
    }
    var o := new Optimiser(c.value);
    o.EliminateDups();
    r := Some(o.root);
    if transBool {
      TransBoolSimpleNots(o.root);
      TransBoolSymbols(o.root);
      TransBoolExact(o.root);
      r := Some(TransBool(o.root));
      forall v: Valuation | WellFormed(v) ensures Promote(EvalOpt(r, v)) == Promote(Eval(o.root, v)) {
        TransBoolKeepsPromoted(o.root, v);
      }
    }
    assert RefinesValue(c.value, o.root);
  }

  /* ---------- expr_contains_symbol, expr_depends_symbol ---------- */

  predicate ContainsSymbol(e: Expr, s: Symbol) {
    match e
    case And(l, r) => ContainsSymbol(l, s) || ContainsSymbol(r, s)
    case Or(l, r) => ContainsSymbol(l, s) || ContainsSymbol(r, s)
    case Not(a) => ContainsSymbol(a, s)
    case Sym(x) => x == s
    case Equal(a, b) => a == s || b == s
    case Unequal(a, b) => a == s || b == s
  }

  predicate DependsSymbol(e: Expr, s: Symbol) {
    match e
    case And(l, r) => DependsSymbol(l, s) || DependsSymbol(r, s)
    case Sym(x) => x == s
    case Equal(a, b) => a == s && (b == YesSym || b == ModSym)
    case Unequal(a, b) => a == s && b == NoSym
    case _ => false
  }

  /** An expression that depends on a symbol cannot be met while the symbol is `n`. */
  lemma {:induction false} DependsForces(e: Expr, s: Symbol, v: Valuation)
    requires WellFormed(v) && HasTruth(s) && DependsSymbol(e, s)
    ensures v.tri(s) == No ==> Eval(e, v) == No
    ensures ContainsSymbol(e, s)
  {
    assert v.str(NoSym) == "n" && v.str(YesSym) == "y" && v.str(ModSym) == "m";
    match e
    case And(l, r) => if DependsSymbol(l, s) { DependsForces(l, s, v); } else { DependsForces(r, s, v); }
    case _ =>
  }

  /** An expression contains the symbols that occur in it. */
  lemma {:induction false} ContainsIs(e: Expr, s: Symbol)
    ensures ContainsSymbol(e, s) <==> s in Symbols(e)
  {
    match e
    case And(l, r) => ContainsIs(l, s); ContainsIs(r, s);
    case Or(l, r) => ContainsIs(l, s); ContainsIs(r, s);
    case Not(a) => ContainsIs(a, s);
    case _ =>
  }

  /** The symbol itself, or that it is `y`, is `m`, or is not `n`. */
  predicate Demands(e: Expr, s: Symbol) {
    e == Sym(s) || e == Equal(s, YesSym) || e == Equal(s, ModSym) || e == Unequal(s, NoSym)
  }

  /** An expression depends on a symbol if one of the operands of its `&&` demands it. */
  lemma {:induction false} DependsIs(e: Expr, s: Symbol)
    ensures DependsSymbol(e, s) <==> exists p: Path :: Leaf(AndOp, e, p) && Demands(At(e, p), s)
  {
    if e.And? {
      DependsIs(e.left, s);
      DependsIs(e.right, s);
      if p: Path :| Leaf(AndOp, e, p) && Demands(At(e, p), s) {
        assert p != [] && Leaf(AndOp, Child(e, p[0]), p[1..]) && At(e, p) == At(Child(e, p[0]), p[1..]);
      }
      if p: Path :| Leaf(AndOp, e.left, p) && Demands(At(e.left, p), s) { LeafUnder(e, L, p); }
      if p: Path :| Leaf(AndOp, e.right, p) && Demands(At(e.right, p), s) { LeafUnder(e, R, p); }
    } else {
      assert Demands(e, s) ==> Leaf(AndOp, e, []) && At(e, []) == e;
      assert forall p: Path :: Leaf(AndOp, e, p) ==> p == [];
    }
  }

  lemma LeafUnder(e: Expr, d: Dir, p: Path)
    requires e.And? && Leaf(AndOp, Child(e, d), p)
    ensures Leaf(AndOp, e, [d] + p) && At(e, [d] + p) == At(Child(e, d), p)
  {
    assert ([d] + p)[1..] == p;
  }
}
