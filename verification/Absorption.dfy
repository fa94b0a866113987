/** The test by which `menu_finalize` decides that an entry moves below the one before it. */
module Absorption {
  import opened Options
  import opened Exprs
  import opened EqElim
  import opened NormalForm
  import opened JoinRules
  import opened Paths
  import opened Dups
  import opened Compare

  ghost predicate TypedOpt(e: Option<Expr>) {
    e.None? || Typed(e.value)
  }

  /** How the comparison with `n` takes a dependency: each symbol set or not, `m` counting as set. */
  predicate Met(e: Option<Expr>, v: Valuation) {
    e.None? || !Reads(e.value, NoSym, v)
  }

  /** `r` is the comparison of the whole dependency with `n` after duplicate elimination. */
  ghost predicate Reduced(e: Option<Expr>, r: Expr) {
    var c := TransCompareOpt(e, IsNeq, NoSym);
    && c.Some? && RefinesValue(Transform(c.value), r) && DupFree(r) && OpposeFree(r)
    && (r == Transform(c.value) <==> DupFree(Transform(c.value)) && OpposeFree(Transform(c.value)))
  }

  /** Nothing is lost in it: comparisons are `y` or `n`, and duplicate elimination never changes those. */
  lemma ReducedValue(e: Option<Expr>, r: Expr, v: Valuation)
    requires Reduced(e, r) && TypedOpt(e) && WellFormed(v)
    ensures Eval(r, v) == Truth(Met(e, v))
  {
    var c := TransCompareOpt(e, IsNeq, NoSym).value;
    if e.Some? { TransCompareReads(e.value, IsNeq, NoSym, v); }
    TransformKeepsValue(c, v);
    assert Refines(Eval(Transform(c), v), Eval(r, v));
  }

  method ReducedNonzero(e: Option<Expr>) returns (r: Expr)
    ensures TypedOpt(e) ==> forall v: Valuation :: WellFormed(v) ==> Eval(r, v) == Truth(Met(e, v))
    ensures Reduced(e, r)
  {
    if e.Some? { TransCompareDefined(e.value, IsNeq, NoSym); }
    var c := TransCompareOpt(e, IsNeq, NoSym).value;
    var o := new Optimiser(Transform(c));
    o.EliminateDups();
    r := o.root;
    forall v: Valuation | WellFormed(v) && TypedOpt(e) ensures Eval(r, v) == Truth(Met(e, v)) {
      ReducedValue(e, r, v);
    }
  }

  /** An entry with dependency `dep` is met only if the symbol before it, or that symbol's prompt, is:
      met as the comparison takes it. */
  ghost predicate Below(sym: Symbol, prompt: Option<Expr>, dep: Option<Expr>) {
    HasTruth(sym) && TypedOpt(prompt) && TypedOpt(dep) ==>
      forall v: Valuation :: WellFormed(v) && Met(dep, v) ==> v.tri(sym) != No || Met(prompt, v)
  }

  predicate Contains(sym: Symbol, dep: Option<Expr>) {
    dep.Some? && ContainsSymbol(dep.value, sym)
  }

  predicate Depends(sym: Symbol, dep: Option<Expr>) {
    dep.Some? && DependsSymbol(dep.value, sym)
  }

  /** The entry with dependency `dep` passes the test after the entry of `sym`, whose prompt depends on `prompt`. */
  ghost predicate Passed(sym: Symbol, prompt: Option<Expr>, dep: Option<Expr>) {
    Contains(sym, dep) &&
    (Depends(sym, dep) || exists d, b :: Reduced(dep, d) && Reduced(prompt, b) && IsYes(ElimEq(d, b).1))
  }

  /** It does not. */
  ghost predicate Refused(sym: Symbol, prompt: Option<Expr>, dep: Option<Expr>) {
    !Contains(sym, dep) ||
    (!Depends(sym, dep) && exists d, b :: Reduced(dep, d) && Reduced(prompt, b) && !IsYes(ElimEq(d, b).1))
  }

  /** The absorption test of `menu_finalize`. */
  method BelongsBelow(sym: Symbol, prompt: Option<Expr>, dep: Option<Expr>) returns (below: bool)
    ensures below ==> Passed(sym, prompt, dep)
    ensures !below ==> Refused(sym, prompt, dep)
  {
    if dep.None? || !ContainsSymbol(dep.value, sym) {
      return false;
    }
    if DependsSymbol(dep.value, sym) {
      return true;
    }
    var b := ReducedNonzero(prompt);
    var d := ReducedNonzero(dep);
    return IsYes(ElimEq(d, b).1);
  }

  /** What passing the test means. */
  lemma PassedBelow(sym: Symbol, prompt: Option<Expr>, dep: Option<Expr>)
    requires Passed(sym, prompt, dep)
    ensures Below(sym, prompt, dep)
  {
    if HasTruth(sym) && TypedOpt(prompt) && TypedOpt(dep) {
      forall v: Valuation | WellFormed(v) && Met(dep, v) ensures v.tri(sym) != No || Met(prompt, v) {
        if Depends(sym, dep) {
          DependsMet(dep.value, sym, v);
        } else {
          var d, b :| Reduced(dep, d) && Reduced(prompt, b) && IsYes(ElimEq(d, b).1);
          ElimEqOrder(d, b, v);
          ReducedValue(dep, d, v);
          ReducedValue(prompt, b, v);
        }
      }
    }
  }

  lemma {:induction false} DependsMet(e: Expr, s: Symbol, v: Valuation)
    requires WellFormed(v) && HasTruth(s) && DependsSymbol(e, s) && Met(Some(e), v)
    ensures v.tri(s) != No
  {
    assert v.str(NoSym) == "n" && v.str(YesSym) == "y" && v.str(ModSym) == "m";
    match e
    case And(l, r) => if DependsSymbol(l, s) { DependsMet(l, s, v); } else { DependsMet(r, s, v); }
    case _ =>
  }

  /* ---------- what the test says about the values themselves ---------- */

  /** The symbols under a negation. */
  function Negated(e: Expr): set<Symbol> {
    match e
    case Not(a) => Symbols(a)
    case And(l, r) => Negated(l) + Negated(r)
    case Or(l, r) => Negated(l) + Negated(r)
    case _ => {}
  }

  function NegatedOpt(e: Option<Expr>): set<Symbol> {
    if e.None? then {} else Negated(e.value)
  }

  ghost predicate SomeNegatedM(e: Option<Expr>, v: Valuation) {
    exists s :: s in NegatedOpt(e) && v.tri(s) == Mod
  }

  /** The value if the negation of an `m` counted as `n`. */
  function Firm(e: Expr, v: Valuation): Tristate {
    match e
    case Not(a) => if Eval(a, v) == Mod then No else Eval(e, v)
    case And(l, r) => AndT(Firm(l, v), Firm(r, v))
    case Or(l, r) => OrT(Firm(l, v), Firm(r, v))
    case _ => Eval(e, v)
  }

  function FirmOpt(e: Option<Expr>, v: Valuation): Tristate {
    if e.None? then Yes else Firm(e.value, v)
  }

  /** With negation only over symbols, that is what the comparison goes by: it differs from the value only
      where an `m` comes from the negation of an `m`. */
  lemma {:induction false} MetBetween(e: Expr, v: Valuation)
    requires WellFormed(v) && SimpleNots(e)
    ensures Met(Some(e), v) <==> Firm(e, v) != No
    ensures Firm(e, v) <= Eval(e, v) && (Eval(e, v) == Yes ==> Firm(e, v) == Yes)
    ensures Firm(e, v) != Eval(e, v) ==> SomeNegatedM(Some(e), v)
  {
    match e
    case And(l, r) => MetBetween(l, v); MetBetween(r, v);
    case Or(l, r) => MetBetween(l, v); MetBetween(r, v);
    case Not(a) =>
      assert Reads(a, NoSym, v) <==> v.tri(a.sym) == No;
      assert a.sym in NegatedOpt(Some(e));
    case _ =>
  }

  /** An entry that passed the test can be met only where the symbol or its prompt can: this holds at a
      valuation if and only if one of those is met or the entry does not owe its value to a negated `m`. */
  lemma BelowExact(sym: Symbol, prompt: Option<Expr>, dep: Option<Expr>, v: Valuation)
    requires Below(sym, prompt, dep) && HasTruth(sym) && TypedOpt(prompt) && TypedOpt(dep)
    requires SimpleOpt(prompt) && SimpleOpt(dep) && WellFormed(v)
    ensures (EvalOpt(dep, v) != No ==> v.tri(sym) != No || EvalOpt(prompt, v) != No) <==>
              v.tri(sym) != No || EvalOpt(prompt, v) != No || EvalOpt(dep, v) == FirmOpt(dep, v)
    ensures EvalOpt(dep, v) == Yes ==> v.tri(sym) != No || EvalOpt(prompt, v) != No
    ensures EvalOpt(dep, v) != FirmOpt(dep, v) ==> EvalOpt(dep, v) == Mod && SomeNegatedM(dep, v)
  {
    if prompt.Some? { MetBetween(prompt.value, v); }
    if dep.Some? { MetBetween(dep.value, v); }
  }

  /** So if none of the negated symbols is a tristate, an entry that passed the test can be met only
      where the symbol or its prompt can. */
  lemma BelowWithoutTristate(sym: Symbol, prompt: Option<Expr>, dep: Option<Expr>, v: Valuation)
    requires Below(sym, prompt, dep) && HasTruth(sym) && TypedOpt(prompt) && TypedOpt(dep)
    requires SimpleOpt(prompt) && SimpleOpt(dep) && WellFormed(v)
    requires forall s :: s in NegatedOpt(dep) ==> s.stype() != TristateType && s != ModSym
    ensures EvalOpt(dep, v) != No ==> v.tri(sym) != No || EvalOpt(prompt, v) != No
  {
    BelowExact(sym, prompt, dep, v);
    if dep.Some? { NegatedTyped(dep.value); }
  }

  lemma {:induction false} NegatedTyped(e: Expr)
    requires Typed(e) && SimpleNots(e)
    ensures forall s :: s in Negated(e) ==> HasTruth(s) || IsTriConstant(s)
  {
    match e
    case And(l, r) => NegatedTyped(l); NegatedTyped(r);
    case Or(l, r) => NegatedTyped(l); NegatedTyped(r);
    case _ =>
  }

  /* ---------- where it goes wrong ---------- */

  function HiddenPrompt(a: Symbol): Expr {
    Equal(a, NoSym)
  }

  function SlippingDep(a: Symbol, s: Symbol, t: Symbol): Expr {
    And(Not(Sym(a)), Or(Sym(s), Sym(t)))
  }

  /** With the prompt `A = n` before it, the entry depending on `!A && (S || T)` passes the test and is not
      refused, yet with A at `m` it is `m` where S and the prompt are `n`. */
  lemma AbsorbedAtM(a: Symbol, s: Symbol, t: Symbol, v: Valuation)
    requires a.stype() == TristateType && s.stype() == Boolean && t.stype() == Boolean && s != t
    ensures Passed(s, Some(HiddenPrompt(a)), Some(SlippingDep(a, s, t)))
    ensures !Refused(s, Some(HiddenPrompt(a)), Some(SlippingDep(a, s, t)))
    ensures WellFormed(v) && v.tri(a) == Mod && v.tri(s) == No && v.tri(t) == Yes ==>
              Eval(SlippingDep(a, s, t), v) == Mod && Eval(HiddenPrompt(a), v) == No
  {
    SlippingValue(a, s, t, v);
    var p, q := Equal(a, NoSym), Or(Sym(s), Sym(t));
    SlippingReduced(a, s, t);
    AtomDupFree(p);
    SlippingFixed(a, s, t);
    SlippingResidue(p, q);
    assert Reduced(Some(SlippingDep(a, s, t)), And(p, q)) && Reduced(Some(HiddenPrompt(a)), p);
  }

  lemma SlippingResidue(p: Expr, q: Expr)
    requires p.Equal? && q.Or?
    ensures ElimEq(And(p, q), p).1 == Sym(YesSym)
  {
    var y := Sym(YesSym);
    assert !ExprEq(q, y) && ExprEq(p, p);
    assert ElimEqRec(AndOp, p, p) == (y, y);
    assert ElimEqRec(AndOp, q, y) == (q, y);
    assert ElimEqRec(AndOp, And(p, q), p) == (And(y, q), y);
  }

  lemma SlippingValue(a: Symbol, s: Symbol, t: Symbol, v: Valuation)
    requires a.stype() == TristateType && s.stype() == Boolean && t.stype() == Boolean
    ensures Contains(s, Some(SlippingDep(a, s, t))) && !Depends(s, Some(SlippingDep(a, s, t)))
    ensures WellFormed(v) && v.tri(a) == Mod && v.tri(s) == No && v.tri(t) == Yes ==>
              Eval(SlippingDep(a, s, t), v) == Mod && Eval(HiddenPrompt(a), v) == No
  {
    var n, q := Not(Sym(a)), Or(Sym(s), Sym(t));
    assert ContainsSymbol(Sym(s), s) && ContainsSymbol(q, s);
    assert !DependsSymbol(q, s);
    assert !DependsSymbol(n, s);
    if WellFormed(v) {
      assert v.str(NoSym) == "n" && v.str(a) == TriName(v.tri(a));
      assert Eval(Sym(a), v) == v.tri(a) && Eval(Sym(s), v) == v.tri(s) && Eval(Sym(t), v) == v.tri(t);
      assert Eval(n, v) == NotT(v.tri(a)) && Eval(q, v) == OrT(v.tri(s), v.tri(t));
    }
  }

  /** The connectives of `p && (s || t)` with an atom `p`, and what stands below them. */
  lemma SlippingPaths(x: Expr, b: Path)
    requires x.And? && !IsConnective(x.left) && x.right.Or? && !IsConnective(x.right.left)
    requires !IsConnective(x.right.right)
    requires Reaches(x, b)
    ensures IsConnective(At(x, b)) ==> b == [] || b == [R]
    ensures Leaf(AndOp, x, b) ==> b == [L] || b == [R]
    ensures OnSpine(AndOp, x, b) ==> b == [] || b == [L] || b == [R]
  {
    AtChild(x, L);
    AtChild(x, R);
    if b != [] {
      var c := b[1..];
      assert b == [b[0]] + c && Reaches(Child(x, b[0]), c);
      if c != [] {
        assert b[0] == R && At(x, b) == At(x.right, c) && !Spine(AndOp, x.right, c);
        assert c == [c[0]] + c[1..] && Reaches(Child(x.right, c[0]), c[1..]);
        assert c[1..] == [] && At(x.right, c) == Child(x.right, c[0]);
      }
    }
  }

  lemma OrPaths(q: Expr, b: Path)
    requires q.Or? && !IsConnective(q.left) && !IsConnective(q.right) && Leaf(OrOp, q, b)
    ensures b == [L] || b == [R]
  {
    assert b != [];
    assert b == [b[0]] + b[1..] && Reaches(Child(q, b[0]), b[1..]);
  }

  /** Neither duplicate pass finds anything in it. */
  lemma SlippingFixed(a: Symbol, s: Symbol, t: Symbol)
    requires a.stype() == TristateType && s.stype() == Boolean && t.stype() == Boolean && s != t
    ensures var x := And(Equal(a, NoSym), Or(Sym(s), Sym(t)));
            DupFree(x) && OpposeFree(x)
  {
    var e, q := Equal(a, NoSym), Or(Sym(s), Sym(t));
    var x := And(e, q);
    AtChild(x, L);
    AtChild(x, R);
    AtChild(q, L);
    AtChild(q, R);
    assert Join(AndOp, e, q).None? && Join(AndOp, q, e).None?;
    assert Join(OrOp, Sym(s), Sym(t)).None? && Join(OrOp, Sym(t), Sym(s)).None?;
    forall b: Path, p: Path, r: Path | Reaches(x, b) && IsConnective(At(x, b))
      && Leaf(OpOf(At(x, b)), At(x, b), p) && Leaf(OpOf(At(x, b)), At(x, b), r) && p != r
      ensures Join(OpOf(At(x, b)), At(At(x, b), p), At(At(x, b), r)).None?
    {
      SlippingPaths(x, b);
      if b == [] { SlippingPaths(x, p); SlippingPaths(x, r); } else { OrPaths(q, p); OrPaths(q, r); }
    }
    SlippingUnopposed(a, s, t);
    forall b: Path, p: Path, r: Path | Reaches(x, b) && IsConnective(At(x, b))
      && Leaf(OpOf(At(x, b)), At(x, b), p) && OnSpine(OpOf(At(x, b)), At(x, b), r) && p != r
      && IsConnective(At(At(x, b), p))
      ensures !Opposes(OpOf(At(x, b)), At(At(x, b), p), At(At(x, b), r))
    {
      SlippingPaths(x, b);
      if b == [] { SlippingPaths(x, p); SlippingPaths(x, r); } else { OrPaths(q, p); }
    }
  }

  lemma SlippingUnopposed(a: Symbol, s: Symbol, t: Symbol)
    requires a.stype() == TristateType && s.stype() == Boolean && t.stype() == Boolean
    ensures var e, q := Equal(a, NoSym), Or(Sym(s), Sym(t));
            !Opposes(AndOp, q, e) && !Opposes(AndOp, q, And(e, q))
  {
    var e, q := Equal(a, NoSym), Or(Sym(s), Sym(t));
    var ns, nt := Not(Sym(s)), Not(Sym(t));
    var n := And(ns, nt);
    NegatedPair(s, t);
    assert !ExprEq(ns, e) && !ExprEq(nt, e) && !ExprEq(ns, q) && !ExprEq(nt, q);
    assert ExtractEq(AndOp, None, ns, e) == Extraction(None, ns, e);
    assert ExtractEq(AndOp, None, nt, e) == Extraction(None, nt, e);
    assert ExtractEq(AndOp, None, ns, q) == Extraction(None, ns, q);
    assert ExtractEq(AndOp, None, nt, q) == Extraction(None, nt, q);
    assert ExtractEq(AndOp, None, n, e) == Extraction(None, n, e);
    assert ExtractEq(AndOp, None, ns, And(e, q)) == Extraction(None, ns, And(e, q));
    assert ExtractEq(AndOp, None, nt, And(e, q)) == Extraction(None, nt, And(e, q));
    assert ExtractEq(AndOp, None, n, And(e, q)) == Extraction(None, n, And(e, q));
  }

  lemma NegatedPair(s: Symbol, t: Symbol)
    requires s.stype() == Boolean && t.stype() == Boolean
    ensures Transform(Not(Or(Sym(s), Sym(t)))) == And(Not(Sym(s)), Not(Sym(t)))
    ensures Transform(Not(And(Not(Sym(s)), Not(Sym(t))))) == Or(Sym(s), Sym(t))
  {
    var ns, nt := Not(Sym(s)), Not(Sym(t));
    assert Transform(Sym(s)) == Sym(s) && Transform(ns) == ns;
    assert Transform(Sym(t)) == Sym(t) && Transform(nt) == nt;
    assert Transform(And(ns, nt)) == And(ns, nt) && Transform(Or(Sym(s), Sym(t))) == Or(Sym(s), Sym(t));
    assert Transform(Not(ns)) == Sym(s);
    assert Transform(Not(nt)) == Sym(t);
    assert Transform(Or(Not(ns), Not(nt))) == Or(Sym(s), Sym(t));
  }

  lemma SlippingReduced(a: Symbol, s: Symbol, t: Symbol)
    requires a.stype() == TristateType && s.stype() == Boolean && t.stype() == Boolean
    ensures TransCompare(HiddenPrompt(a), IsNeq, NoSym) == Some(Equal(a, NoSym))
    ensures TransCompare(SlippingDep(a, s, t), IsNeq, NoSym).Some?
    ensures Transform(TransCompare(SlippingDep(a, s, t), IsNeq, NoSym).value) ==
            And(Equal(a, NoSym), Or(Sym(s), Sym(t)))
  {
    var l, r := Unequal(a, NoSym), And(Equal(s, NoSym), Equal(t, NoSym));
    assert TransCompare(Not(Sym(a)), IsEq, NoSym) == Some(l);
    assert TransCompare(Or(Sym(s), Sym(t)), IsEq, NoSym) == Some(r);
    assert TransCompare(SlippingDep(a, s, t), IsNeq, NoSym) == Some(Not(Or(l, r)));
    var r' := And(Not(Sym(s)), Not(Sym(t)));
    NegatedPair(s, t);
    assert Transform(Or(l, r)) == Or(l, r') by {
      assert Transform(l) == l;
      assert Transform(Equal(s, NoSym)) == Not(Sym(s)) && Transform(Equal(t, NoSym)) == Not(Sym(t));
    }
    assert Transform(Not(l)) == Equal(a, NoSym);
    assert Transform(And(Not(l), Not(r'))) == And(Equal(a, NoSym), Or(Sym(s), Sym(t)));
  }
}
