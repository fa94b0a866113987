/** `expr_eliminate_yn`, `expr_eq`, `expr_eliminate_eq` and `expr_extract_eq`.
    These passes own both of their trees, so overwriting a node and rebuilding it agree. */
module EqElim {
  import opened Options
  import opened Exprs

  /* ---------- expr_eliminate_yn ---------- */

  function ElimYn(e: Expr): (r: Expr)
    ensures Size(r) <= Size(e)
  {
    match e
    case And(l0, r0) =>
      var l, r := ElimYn(l0), ElimYn(r0);
      if IsNo(l) then Sym(NoSym)
      else if IsYes(l) then r
      else if IsNo(r) then Sym(NoSym)
      else if IsYes(r) then l
      else And(l, r)
    case Or(l0, r0) =>
      var l, r := ElimYn(l0), ElimYn(r0);
      if IsNo(l) then r
      else if IsYes(l) then Sym(YesSym)
      else if IsNo(r) then l
      else if IsYes(r) then Sym(YesSym)
      else Or(l, r)
    case _ => e
  }

  /** Some `&&` or `||` node reachable through `&&` and `||` has the constant `y` or `n` as a child. */
  predicate HasYn(e: Expr) {
    IsConnective(e) && (IsYN(e.left) || IsYN(e.right) || HasYn(e.left) || HasYn(e.right))
  }

  lemma {:induction false} ElimYnKeepsValue(e: Expr, v: Valuation)
    requires WellFormed(v)
    ensures Eval(ElimYn(e), v) == Eval(e, v)
  {
    if IsConnective(e) {
      ElimYnKeepsValue(e.left, v);
      ElimYnKeepsValue(e.right, v);
    }
  }

  lemma {:induction false} ElimYnSymbols(e: Expr)
    ensures Symbols(ElimYn(e)) <= WithConstants(Symbols(e))
  {
    if IsConnective(e) {
      ElimYnSymbols(e.left);
      ElimYnSymbols(e.right);
    }
  }

  /** The pass removes every such constant, and shrinks the tree exactly when there was one. */
  lemma {:induction false} ElimYnExact(e: Expr)
    ensures !HasYn(ElimYn(e))
    ensures HasYn(e) <==> Size(ElimYn(e)) < Size(e)
    ensures HasYn(e) <==> ElimYn(e) != e
  {
    if IsConnective(e) {
      ElimYnExact(e.left);
      ElimYnExact(e.right);
    }
  }

  /* ---------- expr_eq and expr_eliminate_eq ---------- */

  predicate SameType(a: Expr, b: Expr) {
    match a
    case Sym(_) => b.Sym?
    case Not(_) => b.Not?
    case And(_, _) => b.And?
    case Or(_, _) => b.Or?
    case Equal(_, _) => b.Equal?
    case Unequal(_, _) => b.Unequal?
  }

  function ElimEqRank(t: Op, e1: Expr, e2: Expr): nat {
    if IsOp(e1, t) || IsOp(e2, t) then 1 else 4
  }

  /** `__expr_eliminate_eq`: the leaves of `e1` against the leaves of `e2`, both updated as it goes. */
  function ElimEqRec(t: Op, e1: Expr, e2: Expr): (r: (Expr, Expr))
    ensures Size(r.0) <= Size(e1) && Size(r.1) <= Size(e2)
    ensures IsOp(r.0, t) == IsOp(e1, t) && IsOp(r.1, t) == IsOp(e2, t)
    decreases Size(e1) + Size(e2), ElimEqRank(t, e1, e2)
  {
    if IsOp(e1, t) then
      var a := ElimEqRec(t, e1.left, e2);
      var b := ElimEqRec(t, e1.right, a.1);
      (Mk(t, a.0, b.0), b.1)
    else if IsOp(e2, t) then
      var a := ElimEqRec(t, e1, e2.left);
      var b := ElimEqRec(t, a.0, e2.right);
      (b.0, Mk(t, a.1, b.1))
    else if e1 == e2 && IsYN(e1) then (e1, e2)
    else if !ExprEq(e1, e2) then (e1, e2)
    else (Neutral(t), Neutral(t))
  }

  function ElimEq(e1: Expr, e2: Expr): (r: (Expr, Expr))
    decreases Size(e1) + Size(e2), 2
  {
    var a := if IsConnective(e1) then ElimEqRec(OpOf(e1), e1, e2) else (e1, e2);
    var b := if !SameType(a.0, a.1) && IsConnective(a.1) then ElimEqRec(OpOf(a.1), a.0, a.1) else a;
    (ElimYn(b.0), ElimYn(b.1))
  }

  predicate ExprEq(e1: Expr, e2: Expr)
    decreases Size(e1) + Size(e2), 3
  {
    SameType(e1, e2) &&
    match e1
    case Equal(a, b) => a == e2.lhs && b == e2.rhs
    case Unequal(a, b) => a == e2.lhs && b == e2.rhs
    case Sym(s) => s == e2.sym
    case Not(a) => ExprEq(a, e2.arg)
    case _ => var r := ElimEq(e1, e2); r.0.Sym? && r.1.Sym? && r.0.sym == r.1.sym
  }

  /** One value `c` is split off both sides: each original is `c` joined to its residue. */
  predicate Splits(t: Op, c: Tristate, e1: Expr, e2: Expr, r: (Expr, Expr), v: Valuation) {
    && Eval(e1, v) == Comb(t, c, Eval(r.0, v))
    && Eval(e2, v) == Comb(t, c, Eval(r.1, v))
  }

  lemma CombInterchange(t: Op, c1: Tristate, x: Tristate, c2: Tristate, y: Tristate)
    ensures Comb(t, Comb(t, c1, x), Comb(t, c2, y)) == Comb(t, Comb(t, c1, c2), Comb(t, x, y))
    ensures Comb(t, c1, Comb(t, c2, y)) == Comb(t, Comb(t, c1, c2), y)
  {
  }

  lemma EvalMk(t: Op, l: Expr, r: Expr, v: Valuation)
    ensures Eval(Mk(t, l, r), v) == Comb(t, Eval(l, v), Eval(r, v))
  {
  }

  lemma {:induction false} ElimEqRecSplits(t: Op, e1: Expr, e2: Expr, v: Valuation) returns (c: Tristate)
    requires WellFormed(v)
    ensures Splits(t, c, e1, e2, ElimEqRec(t, e1, e2), v)
    decreases Size(e1) + Size(e2), ElimEqRank(t, e1, e2)
  {
    c := NeutralT(t);
    if IsOp(e1, t) {
      var a := ElimEqRec(t, e1.left, e2);
      var b := ElimEqRec(t, e1.right, a.1);
      var c1 := ElimEqRecSplits(t, e1.left, e2, v);
      var c2 := ElimEqRecSplits(t, e1.right, a.1, v);
      SplitsLeft(t, e1, e2, a, b, c1, c2, v);
      c := Comb(t, c1, c2);
    } else if IsOp(e2, t) {
      var a := ElimEqRec(t, e1, e2.left);
      var b := ElimEqRec(t, a.0, e2.right);
      var c1 := ElimEqRecSplits(t, e1, e2.left, v);
      var c2 := ElimEqRecSplits(t, a.0, e2.right, v);
      SplitsRight(t, e1, e2, a, b, c1, c2, v);
      c := Comb(t, c1, c2);
    } else if ExprEq(e1, e2) && !(e1 == e2 && IsYN(e1)) {
      ExprEqSound(e1, e2, v);
      c := Eval(e1, v);
    }
  }

  lemma SplitsLeft(t: Op, e1: Expr, e2: Expr, a: (Expr, Expr), b: (Expr, Expr),
                   c1: Tristate, c2: Tristate, v: Valuation)
    requires IsOp(e1, t)
    requires Splits(t, c1, e1.left, e2, a, v) && Splits(t, c2, e1.right, a.1, b, v)
    ensures Splits(t, Comb(t, c1, c2), e1, e2, (Mk(t, a.0, b.0), b.1), v)
  {
    EvalMk(t, e1.left, e1.right, v);
    EvalMk(t, a.0, b.0, v);
    CombInterchange(t, c1, Eval(a.0, v), c2, Eval(b.0, v));
    CombInterchange(t, c1, c1, c2, Eval(b.1, v));
  }

  lemma SplitsRight(t: Op, e1: Expr, e2: Expr, a: (Expr, Expr), b: (Expr, Expr),
                    c1: Tristate, c2: Tristate, v: Valuation)
    requires IsOp(e2, t)
    requires Splits(t, c1, e1, e2.left, a, v) && Splits(t, c2, a.0, e2.right, b, v)
    ensures Splits(t, Comb(t, c1, c2), e1, e2, (b.0, Mk(t, a.1, b.1)), v)
  {
    EvalMk(t, e2.left, e2.right, v);
    EvalMk(t, a.1, b.1, v);
    CombInterchange(t, c1, Eval(a.1, v), c2, Eval(b.1, v));
    CombInterchange(t, c1, c1, c2, Eval(b.0, v));
  }

  /** Joining a common value keeps any order. */
  lemma SplitsOrder(t: Op, c: Tristate, e1: Expr, e2: Expr, r: (Expr, Expr), v: Valuation)
    requires Splits(t, c, e1, e2, r, v)
    ensures Eval(r.0, v) <= Eval(r.1, v) ==> Eval(e1, v) <= Eval(e2, v)
    ensures Eval(r.0, v) >= Eval(r.1, v) ==> Eval(e1, v) >= Eval(e2, v)
  {
  }

  /** Whatever order holds between the residues holds between the originals. */
  lemma {:induction false} ElimEqOrder(e1: Expr, e2: Expr, v: Valuation)
    requires WellFormed(v)
    ensures var r := ElimEq(e1, e2);
            && (Eval(r.0, v) <= Eval(r.1, v) ==> Eval(e1, v) <= Eval(e2, v))
            && (Eval(r.0, v) >= Eval(r.1, v) ==> Eval(e1, v) >= Eval(e2, v))
    decreases Size(e1) + Size(e2), 2
  {
    var a := (e1, e2);
    if IsConnective(e1) {
      a := ElimEqRec(OpOf(e1), e1, e2);
      var c := ElimEqRecSplits(OpOf(e1), e1, e2, v);
      SplitsOrder(OpOf(e1), c, e1, e2, a, v);
    }
    var b := a;
    if !SameType(a.0, a.1) && IsConnective(a.1) {
      b := ElimEqRec(OpOf(a.1), a.0, a.1);
      var d := ElimEqRecSplits(OpOf(a.1), a.0, a.1, v);
      SplitsOrder(OpOf(a.1), d, a.0, a.1, b, v);
    }
    ElimYnKeepsValue(b.0, v);
    ElimYnKeepsValue(b.1, v);
  }

  /** Expressions the program calls equal have equal values everywhere. */
  lemma {:induction false} ExprEqSound(e1: Expr, e2: Expr, v: Valuation)
    requires ExprEq(e1, e2) && WellFormed(v)
    ensures Eval(e1, v) == Eval(e2, v)
    decreases Size(e1) + Size(e2), 3
  {
    match e1
    case Not(a) => ExprEqSound(a, e2.arg, v);
    case And(_, _) => ElimEqOrder(e1, e2, v);
    case Or(_, _) => ElimEqOrder(e1, e2, v);
    case _ =>
  }

  /* ---------- expr_extract_eq ---------- */

  datatype Extraction = Extraction(common: Option<Expr>, rest1: Expr, rest2: Expr)

  function ExtractEq(t: Op, acc: Option<Expr>, e1: Expr, e2: Expr): (r: Extraction)
    ensures Size(r.rest1) <= Size(e1) && Size(r.rest2) <= Size(e2)
    decreases Size(e1) + Size(e2)
  {
    if IsOp(e1, t) then
      var a := ExtractEq(t, acc, e1.left, e2);
      var b := ExtractEq(t, a.common, e1.right, a.rest2);
      Extraction(b.common, Mk(t, a.rest1, b.rest1), b.rest2)
    else if IsOp(e2, t) then
      var a := ExtractEq(t, acc, e1, e2.left);
      var b := ExtractEq(t, a.common, a.rest1, e2.right);
      Extraction(b.common, b.rest1, Mk(t, a.rest2, b.rest2))
    else if ExprEq(e1, e2) then
      Extraction(Some(if acc.Some? then Mk(t, acc.value, e1) else e1), Neutral(t), Neutral(t))
    else Extraction(acc, e1, e2)
  }

  function AccValue(t: Op, acc: Option<Expr>, v: Valuation): Tristate {
    if acc.None? then NeutralT(t) else Eval(acc.value, v)
  }

  /** What is extracted, joined to a residue, gives back that original. */
  lemma {:induction false} ExtractEqSplits(t: Op, acc: Option<Expr>, e1: Expr, e2: Expr, v: Valuation)
    returns (c: Tristate)
    requires WellFormed(v)
    ensures var x := ExtractEq(t, acc, e1, e2);
            && Splits(t, c, e1, e2, (x.rest1, x.rest2), v)
            && AccValue(t, x.common, v) == Comb(t, AccValue(t, acc, v), c)
    decreases Size(e1) + Size(e2)
  {
    c := NeutralT(t);
    if IsOp(e1, t) {
      var a := ExtractEq(t, acc, e1.left, e2);
      var b := ExtractEq(t, a.common, e1.right, a.rest2);
      var c1 := ExtractEqSplits(t, acc, e1.left, e2, v);
      var c2 := ExtractEqSplits(t, a.common, e1.right, a.rest2, v);
      SplitsLeft(t, e1, e2, (a.rest1, a.rest2), (b.rest1, b.rest2), c1, c2, v);
      c := Comb(t, c1, c2);
      CombInterchange(t, AccValue(t, acc, v), c1, c1, c2);
    } else if IsOp(e2, t) {
      var a := ExtractEq(t, acc, e1, e2.left);
      var b := ExtractEq(t, a.common, a.rest1, e2.right);
      var c1 := ExtractEqSplits(t, acc, e1, e2.left, v);
      var c2 := ExtractEqSplits(t, a.common, a.rest1, e2.right, v);
      SplitsRight(t, e1, e2, (a.rest1, a.rest2), (b.rest1, b.rest2), c1, c2, v);
      c := Comb(t, c1, c2);
      CombInterchange(t, AccValue(t, acc, v), c1, c1, c2);
    } else {
      c := ExtractLeafSplits(t, acc, e1, e2, v);
    }
  }

  lemma ExtractLeafSplits(t: Op, acc: Option<Expr>, e1: Expr, e2: Expr, v: Valuation) returns (c: Tristate)
    requires WellFormed(v) && !IsOp(e1, t) && !IsOp(e2, t)
    ensures var x := ExtractEq(t, acc, e1, e2);
            && Splits(t, c, e1, e2, (x.rest1, x.rest2), v)
            && AccValue(t, x.common, v) == Comb(t, AccValue(t, acc, v), c)
  {
    c := NeutralT(t);
    if ExprEq(e1, e2) {
      ExprEqSound(e1, e2, v);
      c := Eval(e1, v);
      if acc.Some? { EvalMk(t, acc.value, e1, v); }
    }
  }

  /** `expr_extract_eq_and` and `expr_extract_eq_or`: tidy the residues if anything was extracted. */
  function ExtractCommon(t: Op, e1: Expr, e2: Expr): Extraction {
    var x := ExtractEq(t, None, e1, e2);
    if x.common.Some? then Extraction(x.common, ElimYn(x.rest1), ElimYn(x.rest2)) else x
  }

  lemma ExtractCommonRestores(t: Op, e1: Expr, e2: Expr, v: Valuation)
    requires WellFormed(v)
    ensures var x := ExtractCommon(t, e1, e2);
            Splits(t, AccValue(t, x.common, v), e1, e2, (x.rest1, x.rest2), v)
  {
    var x := ExtractEq(t, None, e1, e2);
    var c := ExtractEqSplits(t, None, e1, e2, v);
    ElimYnKeepsValue(x.rest1, v);
    ElimYnKeepsValue(x.rest2, v);
  }
}
