/** Positions inside one expression tree. A `struct expr **` of the source is the path from the
    root to the slot it points at, so two pointers alias exactly when the paths are equal. */
module Paths {
  import opened Exprs
  import opened EqElim
  import opened NormalForm

  datatype Dir = L | R
  type Path = seq<Dir>

  function Child(e: Expr, d: Dir): Expr
    requires IsConnective(e)
  {
    if d == L then e.left else e.right
  }

  function Other(d: Dir): Dir {
    if d == L then R else L
  }

  predicate Reaches(e: Expr, p: Path) {
    p == [] || (IsConnective(e) && Reaches(Child(e, p[0]), p[1..]))
  }

  function At(e: Expr, p: Path): Expr
    requires Reaches(e, p)
  {
    if p == [] then e else At(Child(e, p[0]), p[1..])
  }

  function WithChild(e: Expr, d: Dir, x: Expr): Expr
    requires IsConnective(e)
  {
    if d == L then Mk(OpOf(e), x, e.right) else Mk(OpOf(e), e.left, x)
  }

  /** The tree after writing `x` through the pointer `p`. */
  function Put(e: Expr, p: Path, x: Expr): Expr
    requires Reaches(e, p)
  {
    if p == [] then x else WithChild(e, p[0], Put(Child(e, p[0]), p[1..], x))
  }

  lemma {:induction false} ReachesConcat(e: Expr, p: Path, q: Path)
    requires Reaches(e, p) && Reaches(At(e, p), q)
    ensures Reaches(e, p + q)
    ensures At(e, p + q) == At(At(e, p), q)
    ensures forall x :: Put(e, p + q, x) == Put(e, p, Put(At(e, p), q, x))
  {
    if p == [] {
      assert p + q == q;
    } else {
      assert (p + q)[1..] == p[1..] + q;
      ReachesConcat(Child(e, p[0]), p[1..], q);
    }
  }

  lemma {:induction false} AtPut(e: Expr, p: Path, x: Expr)
    requires Reaches(e, p)
    ensures Reaches(Put(e, p, x), p) && At(Put(e, p, x), p) == x
    ensures forall y :: Put(Put(e, p, x), p, y) == Put(e, p, y)
  {
    if p != [] { AtPut(Child(e, p[0]), p[1..], x); }
  }

  lemma {:induction false} PutAt(e: Expr, p: Path)
    requires Reaches(e, p)
    ensures Put(e, p, At(e, p)) == e
  {
    if p != [] { PutAt(Child(e, p[0]), p[1..]); }
  }

  lemma {:induction false} SizePut(e: Expr, p: Path, x: Expr)
    requires Reaches(e, p)
    ensures Size(Put(e, p, x)) == Size(e) - Size(At(e, p)) + Size(x)
    ensures p != [] ==> Size(At(e, p)) < Size(e)
  {
    if p != [] { SizePut(Child(e, p[0]), p[1..], x); }
  }

  lemma {:induction false} SymbolsAt(e: Expr, p: Path)
    requires Reaches(e, p)
    ensures Symbols(At(e, p)) <= Symbols(e)
  {
    if p != [] { SymbolsAt(Child(e, p[0]), p[1..]); }
  }

  lemma {:induction false} SymbolsPut(e: Expr, p: Path, x: Expr)
    requires Reaches(e, p)
    ensures Symbols(Put(e, p, x)) <= Symbols(e) + Symbols(x)
  {
    if p != [] { SymbolsPut(Child(e, p[0]), p[1..], x); }
  }

  lemma {:induction false} SimpleNotsPut(e: Expr, p: Path, x: Expr)
    requires Reaches(e, p) && SimpleNots(e)
    ensures SimpleNots(At(e, p))
    ensures SimpleNots(x) ==> SimpleNots(Put(e, p, x))
  {
    if p != [] { SimpleNotsPut(Child(e, p[0]), p[1..], x); }
  }

  lemma {:induction false} SimpleNotsElimYn(e: Expr)
    requires SimpleNots(e)
    ensures SimpleNots(ElimYn(e))
  {
    if IsConnective(e) { SimpleNotsElimYn(e.left); SimpleNotsElimYn(e.right); }
  }

  /* ---------- spines: paths through nodes of one type ---------- */

  predicate Spine(t: Op, e: Expr, p: Path) {
    p == [] || (IsOp(e, t) && Spine(t, Child(e, p[0]), p[1..]))
  }

  lemma AtChild(x: Expr, d: Dir)
    requires IsConnective(x)
    ensures Reaches(x, [d]) && At(x, [d]) == Child(x, d) && Spine(OpOf(x), x, [d])
  {
    assert [d][1..] == [];
  }

  lemma {:induction false} SpineExtend(t: Op, e: Expr, p: Path, d: Dir)
    requires Spine(t, e, p) && Reaches(e, p) && IsOp(At(e, p), t)
    ensures Spine(t, e, p + [d]) && Reaches(e, p + [d])
    ensures At(e, p + [d]) == Child(At(e, p), d)
  {
    if p != [] {
      assert (p + [d])[1..] == p[1..] + [d];
      SpineExtend(t, Child(e, p[0]), p[1..], d);
    }
  }

  /** The part of the tree made of `t` nodes has the same shape. */
  predicate SameSpine(t: Op, a: Expr, b: Expr) {
    && IsOp(a, t) == IsOp(b, t)
    && (IsOp(a, t) ==> SameSpine(t, a.left, b.left) && SameSpine(t, a.right, b.right))
  }

  function SpineSize(t: Op, e: Expr): nat {
    if IsOp(e, t) then 1 + SpineSize(t, e.left) + SpineSize(t, e.right) else 0
  }

  lemma {:induction false} SameSpineRefl(t: Op, a: Expr)
    ensures SameSpine(t, a, a)
  {
    if IsOp(a, t) { SameSpineRefl(t, a.left); SameSpineRefl(t, a.right); }
  }

  lemma {:induction false} SameSpineTrans(t: Op, a: Expr, b: Expr, c: Expr)
    requires SameSpine(t, a, b) && SameSpine(t, b, c)
    ensures SameSpine(t, a, c)
  {
    if IsOp(a, t) { SameSpineTrans(t, a.left, b.left, c.left); SameSpineTrans(t, a.right, b.right, c.right); }
  }

  lemma {:induction false} SameSpineSize(t: Op, a: Expr, b: Expr)
    requires SameSpine(t, a, b)
    ensures SpineSize(t, a) == SpineSize(t, b)
  {
    if IsOp(a, t) { SameSpineSize(t, a.left, b.left); SameSpineSize(t, a.right, b.right); }
  }

  /** A pointer along the spine survives any update that keeps the spine. */
  lemma {:induction false} SpineKept(t: Op, a: Expr, b: Expr, p: Path)
    requires Spine(t, a, p) && SameSpine(t, a, b)
    ensures Spine(t, b, p) && Reaches(a, p) && Reaches(b, p)
    ensures SameSpine(t, At(a, p), At(b, p))
    ensures SpineSize(t, At(a, p)) == SpineSize(t, At(b, p))
  {
    if p == [] { SameSpineSize(t, a, b); } else { SpineKept(t, Child(a, p[0]), Child(b, p[0]), p[1..]); }
  }

  lemma {:induction false} SpinePut(t: Op, e: Expr, p: Path, x: Expr)
    requires Spine(t, e, p) && Reaches(e, p) && !IsOp(At(e, p), t) && !IsOp(x, t)
    ensures SameSpine(t, e, Put(e, p, x))
  {
    if p != [] {
      SpinePut(t, Child(e, p[0]), p[1..], x);
      SameSpineRefl(t, e.left);
      SameSpineRefl(t, e.right);
    }
  }

  /* ---------- values ---------- */

  lemma EvalChildren(t: Op, e: Expr, d: Dir, v: Valuation)
    requires IsOp(e, t)
    ensures Eval(e, v) == Comb(t, Eval(Child(e, d), v), Eval(Child(e, Other(d)), v))
  {
  }

  lemma EvalWithChild(t: Op, e: Expr, d: Dir, y: Expr, v: Valuation)
    requires IsOp(e, t)
    ensures Eval(WithChild(e, d, y), v) == Comb(t, Eval(y, v), Eval(Child(e, Other(d)), v))
  {
  }

  lemma CombSwap(t: Op, a: Tristate, b: Tristate, c: Tristate)
    ensures Comb(t, Comb(t, a, b), c) == Comb(t, Comb(t, a, c), b)
  {
  }

  /** A slot on the spine contributes to the whole through one join. */
  lemma {:induction false} SpineValue(t: Op, e: Expr, p: Path, x: Expr, v: Valuation) returns (c: Tristate)
    requires Spine(t, e, p) && Reaches(e, p)
    ensures Eval(e, v) == Comb(t, c, Eval(At(e, p), v))
    ensures Eval(Put(e, p, x), v) == Comb(t, c, Eval(x, v))
  {
    if p == [] {
      c := NeutralT(t);
    } else {
      var d := p[0];
      var inner, outer := Child(e, d), Child(e, Other(d));
      var c1 := SpineValue(t, inner, p[1..], x, v);
      EvalWithChild(t, e, d, Put(inner, p[1..], x), v);
      EvalChildren(t, e, d, v);
      c := Comb(t, c1, Eval(outer, v));
      CombSwap(t, c1, Eval(At(e, p), v), Eval(outer, v));
      CombSwap(t, c1, Eval(x, v), Eval(outer, v));
    }
  }

  /** Writing one leaf of the spine leaves every other leaf alone. */
  lemma {:induction false} SpineApart(t: Op, e: Expr, p: Path, q: Path, x: Expr)
    requires Spine(t, e, p) && Reaches(e, p) && !IsOp(At(e, p), t)
    requires Spine(t, e, q) && Reaches(e, q) && !IsOp(At(e, q), t)
    requires p != q
    ensures Reaches(Put(e, p, x), q) && At(Put(e, p, x), q) == At(e, q)
  {
    if p[0] == q[0] { SpineApart(t, Child(e, p[0]), p[1..], q[1..], x); }
  }

  /** Blanking one leaf and giving another leaf the join of both keeps the value. */
  lemma SpineMerge(t: Op, e: Expr, p: Path, q: Path, y: Expr, v: Valuation)
    requires WellFormed(v)
    requires Spine(t, e, p) && Reaches(e, p) && !IsOp(At(e, p), t)
    requires Spine(t, e, q) && Reaches(e, q) && !IsOp(At(e, q), t)
    requires p != q && Reaches(Put(e, p, Neutral(t)), q)
    requires Eval(y, v) == Comb(t, Eval(At(e, p), v), Eval(At(e, q), v))
    ensures Eval(Put(Put(e, p, Neutral(t)), q, y), v) == Eval(e, v)
  {
    var f := Put(e, p, Neutral(t));
    SpineApart(t, e, p, q, Neutral(t));
    SpinePut(t, e, p, Neutral(t));
    SpineKept(t, e, f, q);
    var c := SpineValue(t, e, p, Neutral(t), v);
    var d := SpineValue(t, f, q, y, v);
    CombInterchange(t, d, d, Eval(At(e, q), v), Eval(At(e, p), v));
  }

  /** Refining a subtree refines the whole, because `&&` and `||` are monotone in that order. */
  lemma {:induction false} RefineAt(e: Expr, p: Path, x: Expr, v: Valuation)
    requires Reaches(e, p) && Refines(Eval(At(e, p), v), Eval(x, v))
    ensures Refines(Eval(e, v), Eval(Put(e, p, x), v))
    ensures Eval(At(e, p), v) == Eval(x, v) ==> Eval(e, v) == Eval(Put(e, p, x), v)
  {
    if p != [] { RefineAt(Child(e, p[0]), p[1..], x, v); }
  }

  lemma {:induction false} HasYnAt(e: Expr, p: Path)
    requires Reaches(e, p)
    requires HasYn(At(e, p)) || (p != [] && IsYN(At(e, p)))
    ensures HasYn(e)
  {
    if |p| == 1 && IsYN(At(e, p)) {
      assert At(e, p) == Child(e, p[0]);
    } else if p != [] {
      HasYnAt(Child(e, p[0]), p[1..]);
    }
  }
}
