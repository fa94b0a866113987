/** `expr_eq` recognises every expression as equal to itself, although it works by blanking common parts. */
module EqReflexive {
  import opened Options
  import opened Exprs
  import opened EqElim
  import opened Paths

  /** The tree with every operand blanked but for the constants `y` and `n`, which are left as they are. */
  function Blank(t: Op, e: Expr): Expr {
    if IsOp(e, t) then Mk(t, Blank(t, e.left), Blank(t, e.right)) else if IsYN(e) then e else Neutral(t)
  }

  /** Every operand is `y` or `n`. */
  predicate AllYn(t: Op, e: Expr) {
    if IsOp(e, t) then AllYn(t, e.left) && AllYn(t, e.right) else IsYN(e)
  }

  lemma {:induction false} BlankAllYn(t: Op, e: Expr)
    ensures AllYn(t, Blank(t, e)) && IsOp(Blank(t, e), t) == IsOp(e, t)
  {
    if IsOp(e, t) {
      BlankAllYn(t, e.left);
      BlankAllYn(t, e.right);
    }
  }

  lemma {:induction false} AllYnFolds(t: Op, e: Expr)
    requires AllYn(t, e)
    ensures IsYN(ElimYn(e))
  {
    if IsOp(e, t) {
      AllYnFolds(t, e.left);
      AllYnFolds(t, e.right);
    }
  }

  /** A constant is never blanked, and blanks nothing. */
  lemma {:induction false} ConstantLeaves(t: Op, c: Expr, f: Expr)
    requires IsYN(c)
    ensures ElimEqRec(t, c, f) == (c, f)
  {
    if IsOp(f, t) {
      ConstantLeaves(t, c, f.left);
      ConstantLeaves(t, c, f.right);
    }
  }

  /** Among constants nothing else finds its equal. */
  lemma {:induction false} NothingAmongConstants(t: Op, a: Expr, f: Expr)
    requires !IsOp(a, t) && !IsYN(a) && AllYn(t, f)
    ensures ElimEqRec(t, a, f) == (a, f)
  {
    if IsOp(f, t) {
      NothingAmongConstants(t, a, f.left);
      NothingAmongConstants(t, a, f.right);
    }
  }

  /** Only constants stand before the place `p` on the spine. */
  predicate Front(t: Op, f: Expr, p: Path) {
    p == [] || (IsOp(f, t) && Front(t, Child(f, p[0]), p[1..]) && (p[0] == R ==> AllYn(t, f.left)))
  }

  lemma {:induction false} FrontReaches(t: Op, f: Expr, p: Path)
    requires Front(t, f, p)
    ensures Reaches(f, p)
  {
    if p != [] { FrontReaches(t, Child(f, p[0]), p[1..]); }
  }

  lemma {:induction false} FrontExtend(t: Op, f: Expr, p: Path, d: Dir)
    requires Front(t, f, p) && Reaches(f, p) && IsOp(At(f, p), t) && (d == R ==> AllYn(t, At(f, p).left))
    ensures Front(t, f, p + [d]) && Reaches(f, p + [d]) && At(f, p + [d]) == Child(At(f, p), d)
  {
    if p == [] {
      assert p + [d] == [d] && [d][1..] == [];
    } else {
      assert (p + [d])[1..] == p[1..] + [d];
      FrontExtend(t, Child(f, p[0]), p[1..], d);
    }
  }

  lemma {:induction false} FrontPut(t: Op, f: Expr, p: Path, x: Expr)
    requires Front(t, f, p) && Reaches(f, p)
    ensures Front(t, Put(f, p, x), p) && Reaches(Put(f, p, x), p)
  {
    if p != [] { FrontPut(t, Child(f, p[0]), p[1..], x); }
  }

  /** An operand meets itself first, and both are blanked. */
  lemma {:induction false} LeafMeetsItself(t: Op, f: Expr, p: Path)
    requires Front(t, f, p) && Reaches(f, p)
    requires var a := At(f, p); !IsOp(a, t) && !IsYN(a) && ExprEq(a, a)
    ensures ElimEqRec(t, At(f, p), f) == (Neutral(t), Put(f, p, Neutral(t)))
    decreases |p|
  {
    if p != [] {
      var a := At(f, p);
      if p[0] == R { NothingAmongConstants(t, a, f.left); }
      LeafMeetsItself(t, Child(f, p[0]), p[1..]);
      if p[0] == L { ConstantLeaves(t, Neutral(t), f.right); }
    }
  }

  /** All operands up to a size equal themselves. */
  ghost predicate SelfEqual(n: nat) {
    forall a :: Size(a) < n ==> ExprEq(a, a)
  }

  /** So does a whole tree met within another. */
  lemma {:induction false} TreeMeetsItself(t: Op, f: Expr, p: Path, n: nat)
    requires Front(t, f, p) && Reaches(f, p) && SelfEqual(n)
    requires Size(At(f, p)) < n || (IsOp(At(f, p), t) && Size(At(f, p)) <= n)
    ensures ElimEqRec(t, At(f, p), f) == (Blank(t, At(f, p)), Put(f, p, Blank(t, At(f, p))))
    decreases Size(At(f, p))
  {
    var e := At(f, p);
    if IsOp(e, t) {
      FrontExtend(t, f, p, L);
      TreeMeetsItself(t, f, p + [L], n);
      var g := Put(f, p + [L], Blank(t, e.left));
      BlankAllYn(t, e.left);
      PutLeft(t, f, p, Blank(t, e.left));
      var m := Mk(t, Blank(t, e.left), e.right);
      FrontPut(t, f, p, m);
      AtPut(f, p, m);
      FrontExtend(t, g, p, R);
      TreeMeetsItself(t, g, p + [R], n);
      PutRight(t, f, p, m, Blank(t, e.right));
    } else if IsYN(e) {
      ConstantLeaves(t, e, f);
      PutAt(f, p);
    } else {
      LeafMeetsItself(t, f, p);
    }
  }

  lemma PutLeft(t: Op, f: Expr, p: Path, x: Expr)
    requires Reaches(f, p) && IsOp(At(f, p), t)
    ensures Reaches(f, p + [L]) && Put(f, p + [L], x) == Put(f, p, Mk(t, x, At(f, p).right))
  {
    assert [L][1..] == [];
    ReachesConcat(f, p, [L]);
    assert Put(At(f, p), [L], x) == Mk(t, x, At(f, p).right);
  }

  lemma PutRight(t: Op, f: Expr, p: Path, m: Expr, x: Expr)
    requires Reaches(f, p) && IsOp(m, t)
    ensures var g := Put(f, p, m);
            && Reaches(g, p + [R])
            && Put(g, p + [R], x) == Put(f, p, Mk(t, m.left, x))
  {
    var g := Put(f, p, m);
    AtPut(f, p, m);
    assert [R][1..] == [];
    ReachesConcat(g, p, [R]);
    assert Put(m, [R], x) == Mk(t, m.left, x);
    PutPut(f, p, m, Mk(t, m.left, x));
  }

  lemma {:induction false} PutPut(f: Expr, p: Path, x: Expr, y: Expr)
    requires Reaches(f, p)
    ensures Reaches(Put(f, p, x), p) && Put(Put(f, p, x), p, y) == Put(f, p, y)
  {
    if p != [] { PutPut(Child(f, p[0]), p[1..], x, y); }
  }

  /** `expr_eq(e, e)` is true for every expression. */
  lemma {:induction false} ExprEqReflexive(e: Expr)
    ensures ExprEq(e, e)
    decreases Size(e)
  {
    if e.Not? {
      ExprEqReflexive(e.arg);
    } else if IsConnective(e) {
      forall a | Size(a) < Size(e) ensures ExprEq(a, a) { ExprEqReflexive(a); }
      var t := OpOf(e);
      TreeMeetsItself(t, e, [], Size(e));
      BlankAllYn(t, e);
      AllYnFolds(t, Blank(t, e));
      assert ElimEq(e, e) == (ElimYn(Blank(t, e)), ElimYn(Blank(t, e)));
    }
  }

  /* ---------- the same for expr_extract_eq ---------- */

  /** The tree with every operand blanked. */
  function BlankAll(t: Op, e: Expr): Expr {
    if IsOp(e, t) then Mk(t, BlankAll(t, e.left), BlankAll(t, e.right)) else Neutral(t)
  }

  predicate AllNeutral(t: Op, e: Expr) {
    if IsOp(e, t) then AllNeutral(t, e.left) && AllNeutral(t, e.right) else e == Neutral(t)
  }

  lemma {:induction false} BlankAllNeutral(t: Op, e: Expr)
    ensures AllNeutral(t, BlankAll(t, e)) && IsOp(BlankAll(t, e), t) == IsOp(e, t)
  {
    if IsOp(e, t) {
      BlankAllNeutral(t, e.left);
      BlankAllNeutral(t, e.right);
    }
  }

  lemma {:induction false} NeutralFolds(t: Op, e: Expr)
    requires AllNeutral(t, e)
    ensures ElimYn(e) == Neutral(t)
  {
    if IsOp(e, t) {
      NeutralFolds(t, e.left);
      NeutralFolds(t, e.right);
    }
  }

  /** A blanked operand changes nothing any more. */
  lemma {:induction false} NeutralExtracts(t: Op, acc: Option<Expr>, f: Expr)
    ensures var x := ExtractEq(t, acc, Neutral(t), f);
            x.rest1 == Neutral(t) && x.rest2 == f && (acc.Some? ==> x.common.Some?)
    decreases f
  {
    if IsOp(f, t) {
      var x := ExtractEq(t, acc, Neutral(t), f.left);
      NeutralExtracts(t, acc, f.left);
      NeutralExtracts(t, x.common, f.right);
    }
  }

  /** Among blanked operands an operand stays as it is. */
  lemma {:induction false} AmongNeutral(t: Op, acc: Option<Expr>, a: Expr, f: Expr)
    requires !IsOp(a, t) && AllNeutral(t, f)
    ensures var x := ExtractEq(t, acc, a, f);
            x.rest1 == a && x.rest2 == f && (acc.Some? ==> x.common.Some?)
    decreases f
  {
    if IsOp(f, t) {
      var x := ExtractEq(t, acc, a, f.left);
      AmongNeutral(t, acc, a, f.left);
      AmongNeutral(t, x.common, a, f.right);
    }
  }

  /** Only blanked operands stand before the place `p` on the spine. */
  predicate Cleared(t: Op, f: Expr, p: Path) {
    p == [] || (IsOp(f, t) && Cleared(t, Child(f, p[0]), p[1..]) && (p[0] == R ==> AllNeutral(t, f.left)))
  }

  lemma {:induction false} ClearedExtend(t: Op, f: Expr, p: Path, d: Dir)
    requires Cleared(t, f, p) && Reaches(f, p) && IsOp(At(f, p), t) && (d == R ==> AllNeutral(t, At(f, p).left))
    ensures Cleared(t, f, p + [d]) && Reaches(f, p + [d]) && At(f, p + [d]) == Child(At(f, p), d)
  {
    if p == [] {
      assert p + [d] == [d] && [d][1..] == [];
    } else {
      assert (p + [d])[1..] == p[1..] + [d];
      ClearedExtend(t, Child(f, p[0]), p[1..], d);
    }
  }

  lemma {:induction false} ClearedPut(t: Op, f: Expr, p: Path, x: Expr)
    requires Cleared(t, f, p) && Reaches(f, p)
    ensures Cleared(t, Put(f, p, x), p) && Reaches(Put(f, p, x), p)
  {
    if p != [] { ClearedPut(t, Child(f, p[0]), p[1..], x); }
  }

  lemma {:induction false} LeafExtracted(t: Op, acc: Option<Expr>, f: Expr, p: Path)
    requires Cleared(t, f, p) && Reaches(f, p) && !IsOp(At(f, p), t)
    ensures var x := ExtractEq(t, acc, At(f, p), f);
            x.rest1 == Neutral(t) && x.rest2 == Put(f, p, Neutral(t)) && x.common.Some?
    decreases |p|
  {
    var a := At(f, p);
    if p == [] {
      ExprEqReflexive(a);
    } else if p[0] == R {
      AmongNeutral(t, acc, a, f.left);
      LeafExtracted(t, ExtractEq(t, acc, a, f.left).common, f.right, p[1..]);
    } else {
      LeafExtracted(t, acc, f.left, p[1..]);
      NeutralExtracts(t, ExtractEq(t, acc, a, f.left).common, f.right);
    }
  }

  lemma {:induction false} TreeExtracted(t: Op, acc: Option<Expr>, f: Expr, p: Path)
    requires Cleared(t, f, p) && Reaches(f, p)
    ensures var x := ExtractEq(t, acc, At(f, p), f);
            x.rest1 == BlankAll(t, At(f, p)) && x.rest2 == Put(f, p, BlankAll(t, At(f, p))) && x.common.Some?
    decreases Size(At(f, p))
  {
    var e := At(f, p);
    if IsOp(e, t) {
      ClearedExtend(t, f, p, L);
      TreeExtracted(t, acc, f, p + [L]);
      var x := ExtractEq(t, acc, e.left, f);
      var g := Put(f, p + [L], BlankAll(t, e.left));
      BlankAllNeutral(t, e.left);
      PutLeft(t, f, p, BlankAll(t, e.left));
      var m := Mk(t, BlankAll(t, e.left), e.right);
      ClearedPut(t, f, p, m);
      AtPut(f, p, m);
      ClearedExtend(t, g, p, R);
      TreeExtracted(t, x.common, g, p + [R]);
      PutRight(t, f, p, m, BlankAll(t, e.right));
    } else {
      LeafExtracted(t, acc, f, p);
    }
  }

  /** All of an expression is common to it and itself. */
  lemma ExtractSelf(t: Op, e: Expr)
    ensures ExtractCommon(t, e, e).rest1 == Neutral(t)
  {
    TreeExtracted(t, None, e, []);
    BlankAllNeutral(t, e);
    NeutralFolds(t, BlankAll(t, e));
  }
}
