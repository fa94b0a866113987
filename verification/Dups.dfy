/** `expr_eliminate_dups`: the two quadratic passes over one tree through aliased pointers,
    and the loop around them. */
module Dups {
  import opened Options
  import opened Exprs
  import opened EqElim
  import opened EqReflexive
  import opened JoinRules
  import opened Paths
  import opened NormalForm

  ghost predicate KeepsValue(a: Expr, b: Expr) {
    forall v: Valuation :: WellFormed(v) ==> Eval(b, v) == Eval(a, v)
  }

  ghost predicate RefinesValue(a: Expr, b: Expr) {
    forall v: Valuation :: WellFormed(v) ==> Refines(Eval(a, v), Eval(b, v))
  }

  /** What a pass that bumped the counter `k` times may have done to a tree of type `t`. */
  predicate Progress(t: Op, a: Expr, b: Expr, k: int) {
    && SameSpine(t, a, b)
    && Size(b) <= Size(a)
    && (k == 0 ==> b == a)
    && (k > 0 ==> HasYn(b))
    && (SimpleNots(a) ==> SimpleNots(b))
    && Symbols(b) <= WithConstants(Symbols(a))
  }

  lemma ProgressTrans(t: Op, a: Expr, b: Expr, c: Expr, j: int, k: int)
    requires j >= 0 && k >= 0 && Progress(t, a, b, j) && Progress(t, b, c, k)
    ensures Progress(t, a, c, j + k)
  {
    SameSpineTrans(t, a, b, c);
  }

  /** Two slots that a pass may compare: both on the `t` spine below the same `t` node. */
  predicate Slots(t: Op, x: Expr, s1: Path, s2: Path) {
    && IsOp(x, t)
    && Spine(t, x, s1) && Reaches(x, s1)
    && Spine(t, x, s2) && Reaches(x, s2)
  }

  lemma SlotsKept(t: Op, x: Expr, y: Expr, s1: Path, s2: Path)
    requires Slots(t, x, s1, s2) && SameSpine(t, x, y)
    ensures Slots(t, y, s1, s2)
    ensures IsOp(At(x, s1), t) == IsOp(At(y, s1), t) && IsOp(At(x, s2), t) == IsOp(At(y, s2), t)
    ensures SpineSize(t, At(y, s1)) == SpineSize(t, At(x, s1))
    ensures SpineSize(t, At(y, s2)) == SpineSize(t, At(x, s2))
  {
    SpineKept(t, x, y, s1);
    SpineKept(t, x, y, s2);
  }

  lemma SlotsSplit(t: Op, x: Expr, s1: Path, s2: Path)
    requires Slots(t, x, s1, s2) && IsOp(At(x, s1), t)
    ensures Slots(t, x, s1 + [L], s2) && Slots(t, x, s1 + [R], s2)
    ensures SpineSize(t, At(x, s1 + [L])) < SpineSize(t, At(x, s1))
    ensures SpineSize(t, At(x, s1 + [R])) < SpineSize(t, At(x, s1))
  {
    SpineExtend(t, x, s1, L);
    SpineExtend(t, x, s1, R);
  }

  /* ---------- what the passes look for ---------- */

  /** `p` is an operand of the flattened `t` node `x`. */
  predicate Leaf(t: Op, x: Expr, p: Path) {
    Spine(t, x, p) && Reaches(x, p) && !IsOp(At(x, p), t)
  }

  /** No two operands of one `&&` or `||`, anywhere in the tree, can be merged. */
  ghost predicate DupFree(e: Expr) {
    forall b: Path, p: Path, q: Path :: Reaches(e, b) && IsConnective(At(e, b)) ==>
      var t := OpOf(At(e, b));
      Leaf(t, At(e, b), p) && Leaf(t, At(e, b), q) && p != q ==> Join(t, At(At(e, b), p), At(At(e, b), q)).None?
  }

  /** What the first pass has checked for the operands below `s1` against those below `s2`. */
  ghost predicate Merged(t: Op, x: Expr, s1: Path, s2: Path) {
    forall p: Path, q: Path :: s1 <= p && s2 <= q && Leaf(t, x, p) && Leaf(t, x, q) && p != q ==>
      Join(t, At(x, p), At(x, q)).None? && DupFree(At(x, p))
  }

  lemma PrefixGrows(s: Path, p: Path)
    requires s <= p && s != p
    ensures s + [L] <= p || s + [R] <= p
  {
    if p[|s|] == L { assert s + [L] <= p; } else { assert s + [R] <= p; }
  }

  lemma MergedSplitLeft(t: Op, x: Expr, s1: Path, s2: Path)
    requires Spine(t, x, s1) && Reaches(x, s1) && IsOp(At(x, s1), t)
    requires Merged(t, x, s1 + [L], s2) && Merged(t, x, s1 + [R], s2)
    ensures Merged(t, x, s1, s2)
  {
    forall p: Path, q: Path | s1 <= p && s2 <= q && Leaf(t, x, p) && Leaf(t, x, q) && p != q
      ensures Join(t, At(x, p), At(x, q)).None? && DupFree(At(x, p))
    {
      assert p != s1;
      PrefixGrows(s1, p);
    }
  }

  lemma MergedSplitRight(t: Op, x: Expr, s1: Path, s2: Path)
    requires Spine(t, x, s2) && Reaches(x, s2) && IsOp(At(x, s2), t)
    requires Merged(t, x, s1, s2 + [L]) && Merged(t, x, s1, s2 + [R])
    ensures Merged(t, x, s1, s2)
  {
    forall p: Path, q: Path | s1 <= p && s2 <= q && Leaf(t, x, p) && Leaf(t, x, q) && p != q
      ensures Join(t, At(x, p), At(x, q)).None? && DupFree(At(x, p))
    {
      assert q != s2;
      PrefixGrows(s2, q);
    }
  }

  /** Below a leaf there is no longer spine. */
  lemma {:induction false} LeafEnds(t: Op, x: Expr, s: Path, p: Path)
    requires Leaf(t, x, s) && Leaf(t, x, p) && s <= p
    ensures p == s
  {
    if s == [] {
      assert !IsOp(x, t);
    } else {
      assert p[0] == s[0] && s[1..] <= p[1..];
      LeafEnds(t, Child(x, s[0]), s[1..], p[1..]);
      assert p == [p[0]] + p[1..] && s == [s[0]] + s[1..];
    }
  }

  lemma MergedLeaves(t: Op, x: Expr, s1: Path, s2: Path)
    requires Leaf(t, x, s1) && Leaf(t, x, s2)
    requires s1 != s2 ==> Join(t, At(x, s1), At(x, s2)).None? && DupFree(At(x, s1))
    ensures Merged(t, x, s1, s2)
  {
    forall p: Path, q: Path | s1 <= p && s2 <= q && Leaf(t, x, p) && Leaf(t, x, q) && p != q
      ensures Join(t, At(x, p), At(x, q)).None? && DupFree(At(x, p))
    {
      LeafEnds(t, x, s1, p);
      LeafEnds(t, x, s2, q);
    }
  }

  /** No operand of an `&&` or `||` stands there twice, at any depth. */
  ghost predicate NoRepeats(e: Expr) {
    forall b: Path, p: Path, q: Path :: Reaches(e, b) && IsConnective(At(e, b)) ==>
      var t := OpOf(At(e, b));
      Leaf(t, At(e, b), p) && Leaf(t, At(e, b), q) && p != q ==> At(At(e, b), p) != At(At(e, b), q)
  }

  lemma DupFreeNoRepeats(e: Expr)
    requires DupFree(e)
    ensures NoRepeats(e)
  {
    forall b: Path, p: Path, q: Path | Reaches(e, b) && IsConnective(At(e, b))
      && Leaf(OpOf(At(e, b)), At(e, b), p) && Leaf(OpOf(At(e, b)), At(e, b), q) && p != q
      ensures At(At(e, b), p) != At(At(e, b), q)
    {
      EqualMerges(OpOf(At(e, b)), At(At(e, b), p), At(At(e, b), q));
    }
  }

  lemma AtomDupFree(e: Expr)
    requires !IsConnective(e)
    ensures DupFree(e) && OpposeFree(e)
  {
  }

  /** Every node lies on the spine of the root or below one of its leaves. */
  lemma {:induction false} SpineOrBelow(t: Op, x: Expr, b: Path) returns (s: Path, rest: Path)
    requires Reaches(x, b)
    ensures b == s + rest && Spine(t, x, s) && Reaches(x, s) && Reaches(At(x, s), rest)
    ensures At(x, b) == At(At(x, s), rest)
    ensures rest == [] || Leaf(t, x, s)
    ensures rest == [] && s != [] ==> IsOp(x, t)
  {
    if b == [] || !IsOp(x, t) {
      s, rest := [], b;
    } else {
      s, rest := SpineOrBelow(t, Child(x, b[0]), b[1..]);
      s := [b[0]] + s;
      assert s[1..] + rest == b[1..];
      assert b == [b[0]] + b[1..];
    }
  }

  lemma {:induction false} SomeLeaf(t: Op, x: Expr) returns (p: Path)
    ensures Leaf(t, x, p)
  {
    if IsOp(x, t) {
      var q := SomeLeaf(t, x.left);
      p := [L] + q;
    } else {
      p := [];
    }
  }

  lemma OtherLeaf(t: Op, x: Expr, p: Path) returns (q: Path)
    requires IsOp(x, t) && Leaf(t, x, p)
    ensures Leaf(t, x, q) && q != p
  {
    var r := SomeLeaf(t, Child(x, Other(p[0])));
    q := [Other(p[0])] + r;
  }

  lemma {:induction false} LeafBelow(t: Op, x: Expr, s: Path, p: Path)
    requires Spine(t, x, s) && Reaches(x, s) && Spine(t, At(x, s), p) && Reaches(At(x, s), p)
    ensures Spine(t, x, s + p) && Reaches(x, s + p) && At(x, s + p) == At(At(x, s), p)
  {
    if s == [] {
      assert s + p == p;
    } else {
      assert (s + p)[1..] == s[1..] + p;
      LeafBelow(t, Child(x, s[0]), s[1..], p);
    }
  }

  /** A completed first pass leaves nothing to merge at any depth. */
  lemma MergedAll(t: Op, x: Expr)
    requires IsOp(x, t) && Merged(t, x, [], [])
    ensures DupFree(x)
  {
    forall b: Path, p: Path, q: Path | Reaches(x, b) && IsConnective(At(x, b))
      && Leaf(OpOf(At(x, b)), At(x, b), p) && Leaf(OpOf(At(x, b)), At(x, b), q) && p != q
      ensures Join(OpOf(At(x, b)), At(At(x, b), p), At(At(x, b), q)).None?
    {
      var s, rest := SpineOrBelow(t, x, b);
      if rest == [] && IsOp(At(x, s), t) {
        assert b == s;
        LeafBelow(t, x, s, p);
        LeafBelow(t, x, s, q);
        assert (s + p)[|s|..] == p && (s + q)[|s|..] == q;
      } else {
        var o := OtherLeaf(t, x, s);
        assert DupFree(At(x, s));
      }
    }
  }

  lemma DupFreeBelow(x: Expr, s: Path)
    requires DupFree(x) && Reaches(x, s)
    ensures DupFree(At(x, s))
  {
    forall b: Path, p: Path, q: Path | Reaches(At(x, s), b) && IsConnective(At(At(x, s), b))
      && Leaf(OpOf(At(At(x, s), b)), At(At(x, s), b), p) && Leaf(OpOf(At(At(x, s), b)), At(At(x, s), b), q) && p != q
      ensures Join(OpOf(At(At(x, s), b)), At(At(At(x, s), b), p), At(At(At(x, s), b), q)).None?
    {
      ReachesConcat(x, s, b);
    }
  }

  /** In a tree with nothing to merge the first pass finds nothing. */
  lemma DupFreeLeaves(t: Op, x: Expr, s1: Path, s2: Path)
    requires DupFree(x) && IsOp(x, t) && Leaf(t, x, s1) && Leaf(t, x, s2) && s1 != s2
    ensures Join(t, At(x, s1), At(x, s2)).None?
  {
    assert Reaches(x, []) && At(x, []) == x;
  }

  lemma MergeSymbols(t: Op, x: Expr, s1: Path, s2: Path)
    requires Reaches(x, s1) && Reaches(x, s2) && Join(t, At(x, s1), At(x, s2)).Some?
    requires Reaches(Put(x, s1, Neutral(t)), s2)
    ensures Symbols(Put(Put(x, s1, Neutral(t)), s2, Join(t, At(x, s1), At(x, s2)).value)) <= WithConstants(Symbols(x))
  {
    SymbolsAt(x, s1);
    SymbolsAt(x, s2);
    JoinSymbols(t, At(x, s1), At(x, s2));
    SymbolsPut(x, s1, Neutral(t));
    SymbolsPut(Put(x, s1, Neutral(t)), s2, Join(t, At(x, s1), At(x, s2)).value);
  }

  /** One merge of two leaves. */
  lemma MergeStep(t: Op, x: Expr, s1: Path, s2: Path)
    requires Slots(t, x, s1, s2) && s1 != s2
    requires !IsOp(At(x, s1), t) && !IsOp(At(x, s2), t)
    requires Join(t, At(x, s1), At(x, s2)).Some?
    ensures Reaches(Put(x, s1, Neutral(t)), s2)
    ensures var z := Put(Put(x, s1, Neutral(t)), s2, Join(t, At(x, s1), At(x, s2)).value);
            Progress(t, x, z, 1) && KeepsValue(x, z)
  {
    var e1, e2 := At(x, s1), At(x, s2);
    var tmp := Join(t, e1, e2).value;
    var y := Put(x, s1, Neutral(t));
    JoinShape(t, e1, e2);
    SpineApart(t, x, s1, s2, Neutral(t));
    SpinePut(t, x, s1, Neutral(t));
    SlotsKept(t, x, y, s1, s2);
    SpinePut(t, y, s2, tmp);
    var z := Put(y, s2, tmp);
    SameSpineTrans(t, x, y, z);
    SizePut(x, s1, Neutral(t));
    SizePut(y, s2, tmp);
    MergeSymbols(t, x, s1, s2);
    if SimpleNots(x) {
      SimpleNotsPut(x, s1, Neutral(t));
      SimpleNotsPut(x, s2, tmp);
      SimpleNotsPut(y, s2, tmp);
    }
    AtPut(x, s1, Neutral(t));
    SpineApart(t, y, s2, s1, tmp);
    HasYnAt(z, s1);
    forall v: Valuation | WellFormed(v) ensures Eval(z, v) == Eval(x, v) {
      JoinSound(t, e1, e2, v);
      SpineMerge(t, x, s1, s2, tmp, v);
    }
  }

  /** A nested pass below a leaf is a step of the enclosing tree. */
  lemma NestedStep(t: Op, x: Expr, s: Path, u: Op, y: Expr, k: int)
    requires Spine(t, x, s) && Reaches(x, s) && !IsOp(At(x, s), t)
    requires u != t && IsOp(At(x, s), u) && Progress(u, At(x, s), y, k)
    ensures Progress(t, x, Put(x, s, y), k)
  {
    SpinePut(t, x, s, y);
    SizePut(x, s, y);
    PutAt(x, s);
    AtPut(x, s, y);
    SymbolsAt(x, s);
    SymbolsPut(x, s, y);
    if SimpleNots(x) { SimpleNotsPut(x, s, y); }
    if k > 0 { HasYnAt(Put(x, s, y), s); }
  }

  lemma NestedKeeps(x: Expr, s: Path, y: Expr)
    requires Reaches(x, s) && KeepsValue(At(x, s), y)
    ensures KeepsValue(x, Put(x, s, y))
  {
    forall v: Valuation | WellFormed(v) ensures Eval(Put(x, s, y), v) == Eval(x, v) {
      RefineAt(x, s, y, v);
    }
  }

  lemma NestedRefines(x: Expr, s: Path, y: Expr)
    requires Reaches(x, s) && RefinesValue(At(x, s), y)
    ensures RefinesValue(x, Put(x, s, y))
  {
    forall v: Valuation | WellFormed(v) ensures Refines(Eval(x, v), Eval(Put(x, s, y), v)) {
      RefineAt(x, s, y, v);
    }
  }

  /* ---------- the second pass ---------- */

  function OtherOp(t: Op): Op {
    if t == AndOp then OrOp else AndOp
  }

  /** The test of `expr_eliminate_dups2`: everything `!e1` says is already said by `e2`. */
  predicate Opposes(t: Op, e1: Expr, e2: Expr) {
    ExtractCommon(t, Transform(Not(e1)), e2).rest1 == Neutral(t)
  }

  lemma CombAbsorbs(t: Op, c: Tristate, r: Tristate)
    ensures Comb(t, Comb(t, c, r), Comb(t, c, NeutralT(t))) == Comb(t, c, r)
  {
  }

  /** So, within an `&&`, the two sides together are never `y`; within an `||`, never `n`. */
  lemma OpposesValue(t: Op, e1: Expr, e2: Expr, v: Valuation)
    requires Opposes(t, e1, e2) && WellFormed(v)
    ensures Comb(t, Eval(e2, v), NotT(Eval(e1, v))) == Eval(e2, v)
  {
    var n := Transform(Not(e1));
    TransformKeepsValue(Not(e1), v);
    ExtractCommonRestores(t, n, e2, v);
    var x := ExtractCommon(t, n, e2);
    var c := AccValue(t, x.common, v);
    assert Eval(Neutral(t), v) == NeutralT(t);
    CombAbsorbs(t, c, Eval(x.rest2, v));
  }

  predicate OnSpine(t: Op, x: Expr, q: Path) {
    Spine(t, x, q) && Reaches(x, q)
  }

  /** No compound operand, anywhere in the tree, is opposed by what stands beside or above it. */
  ghost predicate OpposeFree(e: Expr) {
    forall b: Path, p: Path, q: Path :: Reaches(e, b) && IsConnective(At(e, b)) ==>
      var t := OpOf(At(e, b));
      Leaf(t, At(e, b), p) && OnSpine(t, At(e, b), q) && p != q && IsConnective(At(At(e, b), p)) ==>
        !Opposes(t, At(At(e, b), p), At(At(e, b), q))
  }

  /** What the second pass has checked for the operands below `s1` against the slots below `s2`. */
  ghost predicate Unopposed(t: Op, x: Expr, s1: Path, s2: Path) {
    forall p: Path, q: Path ::
      s1 <= p && s2 <= q && Leaf(t, x, p) && OnSpine(t, x, q) && p != q && IsConnective(At(x, p)) ==>
        !Opposes(t, At(x, p), At(x, q)) && OpposeFree(At(x, p))
  }

  lemma UnopposedSplitLeft(t: Op, x: Expr, s1: Path, s2: Path)
    requires OnSpine(t, x, s1) && IsOp(At(x, s1), t)
    requires Unopposed(t, x, s1 + [L], s2) && Unopposed(t, x, s1 + [R], s2)
    ensures Unopposed(t, x, s1, s2)
  {
    forall p: Path, q: Path |
      s1 <= p && s2 <= q && Leaf(t, x, p) && OnSpine(t, x, q) && p != q && IsConnective(At(x, p))
      ensures !Opposes(t, At(x, p), At(x, q)) && OpposeFree(At(x, p))
    {
      assert p != s1;
      PrefixGrows(s1, p);
    }
  }

  lemma UnopposedSplitRight(t: Op, x: Expr, s1: Path, s2: Path)
    requires Leaf(t, x, s1)
    requires Unopposed(t, x, s1, s2 + [L]) && Unopposed(t, x, s1, s2 + [R])
    requires s1 != s2 && IsConnective(At(x, s1)) && OnSpine(t, x, s2) ==>
               !Opposes(t, At(x, s1), At(x, s2)) && OpposeFree(At(x, s1))
    ensures Unopposed(t, x, s1, s2)
  {
    forall p: Path, q: Path |
      s1 <= p && s2 <= q && Leaf(t, x, p) && OnSpine(t, x, q) && p != q && IsConnective(At(x, p))
      ensures !Opposes(t, At(x, p), At(x, q)) && OpposeFree(At(x, p))
    {
      LeafEnds(t, x, s1, p);
      if q != s2 { PrefixGrows(s2, q); }
    }
  }

  lemma {:induction false} SpineEnds(t: Op, x: Expr, s: Path, q: Path)
    requires Leaf(t, x, s) && OnSpine(t, x, q) && s <= q
    ensures q == s
  {
    if s == [] {
      assert !IsOp(x, t);
    } else {
      assert q[0] == s[0] && s[1..] <= q[1..];
      SpineEnds(t, Child(x, s[0]), s[1..], q[1..]);
      assert q == [q[0]] + q[1..] && s == [s[0]] + s[1..];
    }
  }

  lemma UnopposedLeaves(t: Op, x: Expr, s1: Path, s2: Path)
    requires Leaf(t, x, s1) && Leaf(t, x, s2)
    requires s1 != s2 && IsConnective(At(x, s1)) ==>
               !Opposes(t, At(x, s1), At(x, s2)) && OpposeFree(At(x, s1))
    ensures Unopposed(t, x, s1, s2)
  {
    forall p: Path, q: Path |
      s1 <= p && s2 <= q && Leaf(t, x, p) && OnSpine(t, x, q) && p != q && IsConnective(At(x, p))
      ensures !Opposes(t, At(x, p), At(x, q)) && OpposeFree(At(x, p))
    {
      LeafEnds(t, x, s1, p);
      SpineEnds(t, x, s2, q);
    }
  }

  lemma UnopposedAll(t: Op, x: Expr)
    requires IsOp(x, t) && Unopposed(t, x, [], [])
    ensures OpposeFree(x)
  {
    forall b: Path, p: Path, q: Path | Reaches(x, b) && IsConnective(At(x, b))
      && Leaf(OpOf(At(x, b)), At(x, b), p) && OnSpine(OpOf(At(x, b)), At(x, b), q) && p != q
      && IsConnective(At(At(x, b), p))
      ensures !Opposes(OpOf(At(x, b)), At(At(x, b), p), At(At(x, b), q))
    {
      var s, rest := SpineOrBelow(t, x, b);
      if rest == [] && IsOp(At(x, s), t) {
        assert b == s;
        LeafBelow(t, x, s, p);
        LeafBelow(t, x, s, q);
        assert (s + p)[|s|..] == p && (s + q)[|s|..] == q;
      } else {
        ConnectiveAbove(At(x, s), rest);
        assert OnSpine(t, x, []) && s != [];
        assert OpposeFree(At(x, s));
      }
    }
  }

  lemma OpposeFreeBelow(x: Expr, s: Path)
    requires OpposeFree(x) && Reaches(x, s)
    ensures OpposeFree(At(x, s))
  {
    forall b: Path, p: Path, q: Path | Reaches(At(x, s), b) && IsConnective(At(At(x, s), b))
      && Leaf(OpOf(At(At(x, s), b)), At(At(x, s), b), p) && OnSpine(OpOf(At(At(x, s), b)), At(At(x, s), b), q) && p != q
      && IsConnective(At(At(At(x, s), b), p))
      ensures !Opposes(OpOf(At(At(x, s), b)), At(At(At(x, s), b), p), At(At(At(x, s), b), q))
    {
      ReachesConcat(x, s, b);
    }
  }

  lemma OpposeFreePair(t: Op, x: Expr, s1: Path, s2: Path)
    requires OpposeFree(x) && IsOp(x, t) && Leaf(t, x, s1) && OnSpine(t, x, s2) && s1 != s2 && IsConnective(At(x, s1))
    ensures !Opposes(t, At(x, s1), At(x, s2))
  {
    assert Reaches(x, []) && At(x, []) == x;
  }

  lemma ConnectiveAbove(e: Expr, rest: Path)
    requires Reaches(e, rest) && IsConnective(At(e, rest))
    ensures IsConnective(e)
  {
  }

  /** The rewrite therefore only ever turns an `m` into a definite value. */
  lemma OpposeStep(t: Op, x: Expr, s1: Path, s2: Path)
    requires Slots(t, x, s1, s2) && !IsOp(At(x, s1), t) && IsConnective(At(x, s1))
    requires Opposes(t, At(x, s1), At(x, s2))
    ensures var z := Put(x, s1, Neutral(OtherOp(t)));
            && Progress(t, x, z, 1) && RefinesValue(x, z)
            && (forall v: Valuation :: WellFormed(v) ==> (Eval(z, v) == Eval(x, v) <==> Eval(x, v) != Mod))
  {
    var a := Neutral(OtherOp(t));
    var z := Put(x, s1, a);
    SpinePut(t, x, s1, a);
    SizePut(x, s1, a);
    SymbolsPut(x, s1, a);
    if SimpleNots(x) { SimpleNotsPut(x, s1, a); }
    AtPut(x, s1, a);
    HasYnAt(z, s1);
    forall v: Valuation | WellFormed(v)
      ensures Refines(Eval(x, v), Eval(z, v)) && (Eval(z, v) == Eval(x, v) <==> Eval(x, v) != Mod)
    {
      OpposesValue(t, At(x, s1), At(x, s2), v);
      var c := SpineValue(t, x, s1, a, v);
      var d := SpineValue(t, x, s2, a, v);
    }
  }

  /** The negation of an operand, in the form the pass gives it, always opposes it. */
  lemma NegationOpposes(t: Op, e: Expr)
    ensures Opposes(t, e, Transform(Not(e)))
  {
    ExtractSelf(t, Transform(Not(e)));
  }

  /** No compound operand has its own negation beside it, at any depth. */
  ghost predicate NoOpposites(e: Expr) {
    forall b: Path, p: Path, q: Path :: Reaches(e, b) && IsConnective(At(e, b)) ==>
      var t := OpOf(At(e, b));
      Leaf(t, At(e, b), p) && OnSpine(t, At(e, b), q) && p != q && IsConnective(At(At(e, b), p)) ==>
        At(At(e, b), q) != Transform(Not(At(At(e, b), p)))
  }

  lemma OpposeFreeNoOpposites(e: Expr)
    requires OpposeFree(e)
    ensures NoOpposites(e)
  {
    forall b: Path, p: Path, q: Path | Reaches(e, b) && IsConnective(At(e, b))
      && Leaf(OpOf(At(e, b)), At(e, b), p) && OnSpine(OpOf(At(e, b)), At(e, b), q) && p != q
      && IsConnective(At(At(e, b), p))
      ensures At(At(e, b), q) != Transform(Not(At(At(e, b), p)))
    {
      NegationOpposes(OpOf(At(e, b)), At(At(e, b), p));
    }
  }

  /** `!a && !b` opposes `a || b`, and `!a || !b` opposes `a && b`, as the comments in the source say. */
  lemma NegationsOppose(a: Symbol, b: Symbol)
    requires !IsTriConstant(a) && !IsTriConstant(b)
    ensures Opposes(AndOp, Or(Sym(a), Sym(b)), And(Not(Sym(a)), Not(Sym(b))))
    ensures Opposes(OrOp, And(Sym(a), Sym(b)), Or(Not(Sym(a)), Not(Sym(b))))
  {
    var na, nb := Not(Sym(a)), Not(Sym(b));
    NormalIsFixed(And(na, nb));
    NormalIsFixed(Or(na, nb));
    assert Transform(Not(Or(Sym(a), Sym(b)))) == And(na, nb);
    assert Transform(Not(And(Sym(a), Sym(b)))) == Or(na, nb);
    NegationOpposes(AndOp, Or(Sym(a), Sym(b)));
    NegationOpposes(OrOp, And(Sym(a), Sym(b)));
  }

  /** A case where that matters: with `a` at `m`, `(a || b) && !a && !b` is `m`, yet the pass makes it `n`. */
  lemma OpposeCanLoseM(a: Symbol, b: Symbol, v: Valuation)
    requires a != b && !IsTriConstant(a) && !IsTriConstant(b)
    requires WellFormed(v) && v.tri(a) == Mod && v.tri(b) == No
    ensures var x := And(Or(Sym(a), Sym(b)), And(Not(Sym(a)), Not(Sym(b))));
            && Opposes(AndOp, At(x, [L]), At(x, [R]))
            && Eval(x, v) == Mod
            && Eval(Put(x, [L], Sym(NoSym)), v) == No
  {
    NegationsOppose(a, b);
    var e2 := And(Not(Sym(a)), Not(Sym(b)));
    var x := And(Or(Sym(a), Sym(b)), e2);
    assert Put(x, [L], Sym(NoSym)) == And(Sym(NoSym), e2);
    assert Eval(Sym(a), v) == Mod && Eval(Sym(b), v) == No;
    assert Eval(Not(Sym(a)), v) == Mod && Eval(Not(Sym(b)), v) == Yes;
    assert Eval(e2, v) == AndT(Eval(Not(Sym(a)), v), Eval(Not(Sym(b)), v));
  }

  /** On that tree the whole of `expr_eliminate_dups` loses every `m`. */
  lemma NegationsOpposedAtRoot(a: Symbol, b: Symbol)
    requires a != b && !IsTriConstant(a) && !IsTriConstant(b)
    ensures OpposedAtRoot(And(Or(Sym(a), Sym(b)), And(Not(Sym(a)), Not(Sym(b)))))
  {
    var o, n := Or(Sym(a), Sym(b)), And(Not(Sym(a)), Not(Sym(b)));
    var x := And(o, n);
    NegationsOppose(a, b);
    OpposedPair(x);
    forall p: Path | Leaf(AndOp, x, p) ensures OpposeFree(At(x, p)) {
      NegationPaths(x, p);
      if At(x, p) == o { PairFree(o); } else { AtomDupFree(At(x, p)); }
    }
    NegationJoins(a, b);
    forall c: Path, p: Path, q: Path | Reaches(x, c) && IsConnective(At(x, c))
      && Leaf(OpOf(At(x, c)), At(x, c), p) && Leaf(OpOf(At(x, c)), At(x, c), q) && p != q
      ensures Join(OpOf(At(x, c)), At(At(x, c), p), At(At(x, c), q)).None?
    {
      NegationPaths(x, c);
      if At(x, c) == x {
        NegationPaths(x, p);
        NegationPaths(x, q);
      } else {
        PairPaths(At(x, c), p);
        PairPaths(At(x, c), q);
      }
    }
  }

  lemma NegationJoins(a: Symbol, b: Symbol)
    requires a != b
    ensures var o, na, nb := Or(Sym(a), Sym(b)), Not(Sym(a)), Not(Sym(b));
            && Join(AndOp, o, na).None? && Join(AndOp, o, nb).None?
            && Join(AndOp, na, o).None? && Join(AndOp, nb, o).None?
            && Join(AndOp, na, nb).None? && Join(AndOp, nb, na).None?
            && Join(OrOp, Sym(a), Sym(b)).None? && Join(OrOp, Sym(b), Sym(a)).None?
  {
    assert !ExprEq(Sym(a), Sym(b)) && !ExprEq(Sym(b), Sym(a));
  }

  lemma OpposedPair(x: Expr)
    requires x.And? && x.left.Or? && Opposes(AndOp, x.left, x.right)
    ensures !OpposeFree(x)
  {
    AtChild(x, L);
    AtChild(x, R);
    assert Reaches(x, []) && At(x, []) == x;
    assert Leaf(AndOp, x, [L]) && OnSpine(AndOp, x, [R]);
  }

  /** A connective of two operands that are none. */
  predicate IsPair(e: Expr) {
    IsConnective(e) && !IsConnective(e.left) && !IsConnective(e.right)
  }

  lemma PairPaths(e: Expr, p: Path)
    requires IsPair(e) && Reaches(e, p)
    ensures p == [] || (p == [L] && At(e, p) == e.left) || (p == [R] && At(e, p) == e.right)
  {
    if p != [] {
      assert p == [p[0]] + p[1..] && Reaches(Child(e, p[0]), p[1..]);
    }
  }

  lemma PairFree(e: Expr)
    requires IsPair(e)
    ensures OpposeFree(e)
  {
    forall b: Path, p: Path | Reaches(e, b) && IsConnective(At(e, b)) && Leaf(OpOf(At(e, b)), At(e, b), p)
      ensures !IsConnective(At(At(e, b), p))
    {
      PairPaths(e, b);
      PairPaths(e, p);
    }
  }

  /** The places of `(a || b) && (!a && !b)` and what stands there. */
  lemma NegationPaths(x: Expr, p: Path)
    requires x.And? && x.left.Or? && IsPair(x.left) && x.right.And? && IsPair(x.right) && Reaches(x, p)
    ensures IsConnective(At(x, p)) ==> At(x, p) == x || At(x, p) == x.left || At(x, p) == x.right
    ensures Leaf(AndOp, x, p) ==> p == [L] || p == [R, L] || p == [R, R]
    ensures p == [L] ==> At(x, p) == x.left
    ensures p == [R, L] ==> At(x, p) == x.right.left
    ensures p == [R, R] ==> At(x, p) == x.right.right
  {
    if p != [] {
      var c := p[1..];
      assert p == [p[0]] + c && Reaches(Child(x, p[0]), c) && At(x, p) == At(Child(x, p[0]), c);
      PairPaths(Child(x, p[0]), c);
      if p[0] == L && c != [] { assert !Spine(AndOp, x.left, c); }
    }
  }

  /** Without any `m` among its symbols an expression is `y` or `n`. */
  lemma {:induction false} DefiniteValue(e: Expr, v: Valuation)
    requires forall s :: s in Symbols(e) ==> v.tri(s) != Mod
    ensures Eval(e, v) != Mod
  {
    match e
    case Not(a) => DefiniteValue(a, v);
    case And(l, r) => DefiniteValue(l, v); DefiniteValue(r, v);
    case Or(l, r) => DefiniteValue(l, v); DefiniteValue(r, v);
    case _ =>
  }

  /** There refinement is equality: this is the meaning the whole loop keeps. */
  lemma RefinedWithoutM(a: Expr, b: Expr, v: Valuation)
    requires RefinesValue(a, b) && WellFormed(v) && forall s :: s in Symbols(a) ==> v.tri(s) != Mod
    ensures Eval(b, v) == Eval(a, v)
  {
    DefiniteValue(a, v);
  }

  /** The value is never `m`. */
  ghost predicate NeverM(e: Expr) {
    forall v: Valuation :: WellFormed(v) ==> Eval(e, v) != Mod
  }

  lemma NeverMRefined(a: Expr, b: Expr)
    requires RefinesValue(a, b) && NeverM(a)
    ensures NeverM(b)
  {
  }

  /** There is nothing for the second pass to do below the operands of the node. */
  ghost predicate LeavesFree(t: Op, x: Expr) {
    forall p: Path :: Leaf(t, x, p) ==> OpposeFree(At(x, p))
  }

  /** All there is to do in the tree is for the second pass among the operands of its root. */
  ghost predicate OpposedAtRoot(x: Expr) {
    IsConnective(x) && DupFree(x) && LeavesFree(OpOf(x), x) && !OpposeFree(x)
  }

  lemma RefinesTrans(a: Expr, b: Expr, c: Expr)
    requires RefinesValue(a, b) && RefinesValue(b, c)
    ensures RefinesValue(a, c)
  {
  }

  /** The expression being optimised and the global rewrite counter. */
  class Optimiser {
    var root: Expr
    var transCount: int

    constructor (e: Expr)
      ensures root == e && transCount == 0
    {
      root, transCount := e, 0;
    }

    /** `__expr_eliminate_eq`: counts a rewrite for every pair it blanks. */
    method EliminateEqPass(t: Op, e1: Expr, e2: Expr) returns (r1: Expr, r2: Expr)
      modifies this`transCount
      ensures (r1, r2) == ElimEqRec(t, e1, e2)
      ensures transCount >= old(transCount)
      ensures transCount == old(transCount) ==> r1 == e1 && r2 == e2
      decreases Size(e1) + Size(e2), ElimEqRank(t, e1, e2)
    {
      r1, r2 := e1, e2;
      if IsOp(e1, t) {
        var l, m := EliminateEqPass(t, e1.left, e2);
        var r;
        r, r2 := EliminateEqPass(t, e1.right, m);
        r1 := Mk(t, l, r);
      } else if IsOp(e2, t) {
        var m, l := EliminateEqPass(t, e1, e2.left);
        var r;
        r1, r := EliminateEqPass(t, m, e2.right);
        r2 := Mk(t, l, r);
      } else if !(e1 == e2 && IsYN(e1)) {
        var same := Eq(e1, e2);
        if same {
          transCount := transCount + 1;
          r1, r2 := Neutral(t), Neutral(t);
        }
      }
    }

    /** `expr_eliminate_eq`. */
    method EliminateEq(e1: Expr, e2: Expr) returns (r1: Expr, r2: Expr)
      modifies this`transCount
      ensures (r1, r2) == ElimEq(e1, e2)
      ensures transCount >= old(transCount)
      decreases Size(e1) + Size(e2), 2
    {
      r1, r2 := e1, e2;
      if IsConnective(r1) {
        r1, r2 := EliminateEqPass(OpOf(r1), r1, r2);
      }
      if !SameType(r1, r2) && IsConnective(r2) {
        r1, r2 := EliminateEqPass(OpOf(r2), r1, r2);
      }
      r1, r2 := ElimYn(r1), ElimYn(r2);
    }

    /** `expr_eq`: works on copies and puts the counter back. */
    method Eq(e1: Expr, e2: Expr) returns (res: bool)
      modifies this`transCount
      ensures res == ExprEq(e1, e2)
      ensures transCount == old(transCount)
      decreases Size(e1) + Size(e2), 3
    {
      if !SameType(e1, e2) {
        return false;
      }
      match e1
      case Equal(a, b) => res := a == e2.lhs && b == e2.rhs;
      case Unequal(a, b) => res := a == e2.lhs && b == e2.rhs;
      case Sym(s) => res := s == e2.sym;
      case Not(a) => res := Eq(a, e2.arg);
      case _ =>
        var oldCount := transCount;
        var r1, r2 := EliminateEq(e1, e2);
        res := r1.Sym? && r2.Sym? && r1.sym == r2.sym;
        transCount := oldCount;
    }

    /** `expr_eliminate_dups1(t, ep1, ep2)`: the slots are `base + s1` and `base + s2`. */
    method Dups1(t: Op, base: Path, s1: Path, s2: Path)
      requires Reaches(root, base) && Slots(t, At(root, base), s1, s2)
      modifies this
      ensures Reaches(root, base) && root == Put(old(root), base, At(root, base))
      ensures transCount >= old(transCount)
      ensures Progress(t, old(At(root, base)), At(root, base), transCount - old(transCount))
      ensures KeepsValue(old(At(root, base)), At(root, base))
      ensures transCount == old(transCount) ==> Merged(t, At(root, base), s1, s2)
      ensures DupFree(old(At(root, base))) ==> transCount == old(transCount)
      decreases Size(At(root, base)), SpineSize(t, At(At(root, base), s1)) + SpineSize(t, At(At(root, base), s2))
    {
      hide DupFree, Merged;
      ghost var x := At(root, base);
      ReachesConcat(root, base, s1);
      ReachesConcat(root, base, s2);
      var e1, e2 := At(root, base + s1), At(root, base + s2);
      if IsOp(e1, t) {
        SlotsSplit(t, x, s1, s2);
        Dups1(t, base, s1 + [L], s2);
        ghost var y, j := At(root, base), transCount;
        SlotsKept(t, x, y, s1 + [R], s2);
        AtPut(old(root), base, y);
        Dups1(t, base, s1 + [R], s2);
        ProgressTrans(t, x, y, At(root, base), j - old(transCount), transCount - j);
        if transCount == old(transCount) { MergedSplitLeft(t, x, s1, s2); }
      } else if IsOp(e2, t) {
        Dups1Right(t, base, s1, s2);
      } else if s1 != s2 {
        Dups1Leaves(t, base, s1, s2);
      } else {
        PutAt(root, base);
        SameSpineRefl(t, x);
        MergedLeaves(t, x, s1, s2);
      }
    }

    /** An operand against both halves of a slot of type `t`. */
    method Dups1Right(t: Op, base: Path, s1: Path, s2: Path)
      requires Reaches(root, base) && Slots(t, At(root, base), s1, s2)
      requires !IsOp(At(At(root, base), s1), t) && IsOp(At(At(root, base), s2), t)
      modifies this
      ensures Reaches(root, base) && root == Put(old(root), base, At(root, base))
      ensures transCount >= old(transCount)
      ensures Progress(t, old(At(root, base)), At(root, base), transCount - old(transCount))
      ensures KeepsValue(old(At(root, base)), At(root, base))
      ensures transCount == old(transCount) ==> Merged(t, At(root, base), s1, s2)
      ensures DupFree(old(At(root, base))) ==> transCount == old(transCount)
      decreases Size(At(root, base)), SpineSize(t, At(At(root, base), s1)) + SpineSize(t, At(At(root, base), s2)), 0
    {
      hide DupFree, Merged;
      ghost var x := At(root, base);
      SlotsSplit(t, x, s2, s1);
      Dups1(t, base, s1, s2 + [L]);
      ghost var y, j := At(root, base), transCount;
      SlotsKept(t, x, y, s1, s2 + [R]);
      AtPut(old(root), base, y);
      Dups1(t, base, s1, s2 + [R]);
      ProgressTrans(t, x, y, At(root, base), j - old(transCount), transCount - j);
      if transCount == old(transCount) { MergedSplitRight(t, x, s1, s2); }
    }

    /** The part of `expr_eliminate_dups1` below its recursion: two different slots holding leaves. */
    method Dups1Leaves(t: Op, base: Path, s1: Path, s2: Path)
      requires Reaches(root, base) && Slots(t, At(root, base), s1, s2) && s1 != s2
      requires !IsOp(At(At(root, base), s1), t) && !IsOp(At(At(root, base), s2), t)
      modifies this
      ensures Reaches(root, base) && root == Put(old(root), base, At(root, base))
      ensures transCount >= old(transCount)
      ensures Progress(t, old(At(root, base)), At(root, base), transCount - old(transCount))
      ensures KeepsValue(old(At(root, base)), At(root, base))
      ensures transCount == old(transCount) ==> Merged(t, At(root, base), s1, s2)
      ensures DupFree(old(At(root, base))) ==> transCount == old(transCount)
      decreases Size(At(root, base)), 0, 1
    {
      hide DupFree, Merged;
      ghost var x := At(root, base);
      var p1, p2 := base + s1, base + s2;
      ReachesConcat(root, base, s1);
      SameSpineRefl(t, x);
      PutAt(root, base);
      if IsConnective(At(root, p1)) {
        Dups1Nested(t, base, s1);
      } else {
        AtomDupFree(At(x, s1));
      }
      ghost var y, j := At(root, base), transCount;
      SlotsKept(t, x, y, s1, s2);
      ReachesConcat(root, base, s1);
      ReachesConcat(root, base, s2);
      var tmp := Join(t, At(root, p1), At(root, p2));
      if tmp.Some? {
        if DupFree(x) { DupFreeLeaves(t, x, s1, s2); }
        MergeStep(t, y, s1, s2);
        ghost var z := Put(y, s1, Neutral(t));
        AtPut(old(root), base, y);
        AtPut(old(root), base, z);
        root := Put(root, p1, Neutral(t));
        ReachesConcat(root, base, s2);
        root := Put(root, p2, tmp.value);
        AtPut(old(root), base, Put(z, s2, tmp.value));
        transCount := transCount + 1;
        ProgressTrans(t, x, y, At(root, base), j - old(transCount), 1);
      } else if transCount == old(transCount) {
        MergedLeaves(t, x, s1, s2);
      }
    }

    /** The recursive call on a leaf that is itself a tree of the other type. */
    method Dups1Nested(t: Op, base: Path, s: Path)
      requires Reaches(root, base) && IsOp(At(root, base), t) && Spine(t, At(root, base), s)
      requires Reaches(At(root, base), s)
      requires IsConnective(At(At(root, base), s)) && !IsOp(At(At(root, base), s), t)
      modifies this
      ensures Reaches(root, base) && root == Put(old(root), base, At(root, base))
      ensures transCount >= old(transCount)
      ensures Progress(t, old(At(root, base)), At(root, base), transCount - old(transCount))
      ensures KeepsValue(old(At(root, base)), At(root, base))
      ensures transCount == old(transCount) ==> DupFree(At(At(root, base), s))
      ensures DupFree(old(At(root, base))) ==> transCount == old(transCount)
      decreases Size(At(root, base)), 0, 0
    {
      ghost var x := At(root, base);
      ReachesConcat(root, base, s);
      var p := base + s;
      var u := OpOf(At(root, p));
      SizePut(x, s, At(x, s));
      if DupFree(x) { DupFreeBelow(x, s); }
      Dups1(u, p, [], []);
      ghost var y := At(root, p);
      NestedStep(t, x, s, u, y, transCount - old(transCount));
      NestedKeeps(x, s, y);
      AtPut(x, s, y);
      if transCount == old(transCount) { MergedAll(u, y); }
      AtPut(old(root), base, Put(x, s, y));
    }

    /** `expr_eliminate_dups2(t, ep1, ep2)`. A second operand of type `t` is visited leaf by leaf
        and then once more as a whole. */
    method Dups2(t: Op, base: Path, s1: Path, s2: Path)
      requires Reaches(root, base) && Slots(t, At(root, base), s1, s2)
      modifies this
      ensures Reaches(root, base) && root == Put(old(root), base, At(root, base))
      ensures transCount >= old(transCount)
      ensures Progress(t, old(At(root, base)), At(root, base), transCount - old(transCount))
      ensures RefinesValue(old(At(root, base)), At(root, base))
      ensures transCount == old(transCount) ==> Unopposed(t, At(root, base), s1, s2)
      ensures OpposeFree(old(At(root, base))) ==> transCount == old(transCount)
      ensures LeavesFree(t, old(At(root, base))) && transCount > old(transCount) ==> NeverM(At(root, base))
      decreases Size(At(root, base)), SpineSize(t, At(At(root, base), s1)) + SpineSize(t, At(At(root, base), s2))
    {
      hide OpposeFree, Unopposed;
      ghost var x := At(root, base);
      ReachesConcat(root, base, s1);
      ReachesConcat(root, base, s2);
      var e1, e2 := At(root, base + s1), At(root, base + s2);
      if IsOp(e1, t) {
        SlotsSplit(t, x, s1, s2);
        Dups2(t, base, s1 + [L], s2);
        ghost var y, j := At(root, base), transCount;
        SlotsKept(t, x, y, s1 + [R], s2);
        AtPut(old(root), base, y);
        Dups2(t, base, s1 + [R], s2);
        ProgressTrans(t, x, y, At(root, base), j - old(transCount), transCount - j);
        if NeverM(y) { NeverMRefined(y, At(root, base)); }
        if transCount == old(transCount) { UnopposedSplitLeft(t, x, s1, s2); }
      } else if IsOp(e2, t) {
        Dups2Right(t, base, s1, s2);
      } else {
        Dups2Pair(t, base, s1, s2);
        if transCount == old(transCount) { UnopposedLeaves(t, x, s1, s2); }
      }
    }

    /** An operand against a slot of type `t`: both halves of the slot, then the slot as a whole. */
    method Dups2Right(t: Op, base: Path, s1: Path, s2: Path)
      requires Reaches(root, base) && Slots(t, At(root, base), s1, s2)
      requires !IsOp(At(At(root, base), s1), t) && IsOp(At(At(root, base), s2), t)
      modifies this
      ensures Reaches(root, base) && root == Put(old(root), base, At(root, base))
      ensures transCount >= old(transCount)
      ensures Progress(t, old(At(root, base)), At(root, base), transCount - old(transCount))
      ensures RefinesValue(old(At(root, base)), At(root, base))
      ensures transCount == old(transCount) ==> Unopposed(t, At(root, base), s1, s2)
      ensures OpposeFree(old(At(root, base))) ==> transCount == old(transCount)
      ensures LeavesFree(t, old(At(root, base))) && transCount > old(transCount) ==> NeverM(At(root, base))
      decreases Size(At(root, base)), SpineSize(t, At(At(root, base), s1)) + SpineSize(t, At(At(root, base), s2)), 0
    {
      hide OpposeFree, Unopposed;
      ghost var x := At(root, base);
      SlotsSplit(t, x, s2, s1);
      Dups2(t, base, s1, s2 + [L]);
      ghost var y, j := At(root, base), transCount;
      SlotsKept(t, x, y, s1, s2 + [R]);
      AtPut(old(root), base, y);
      Dups2(t, base, s1, s2 + [R]);
      ghost var z, k := At(root, base), transCount;
      ProgressTrans(t, x, y, z, j - old(transCount), k - j);
      RefinesTrans(x, y, z);
      if NeverM(y) { NeverMRefined(y, z); }
      SlotsKept(t, x, z, s1, s2);
      AtPut(old(root), base, z);
      Dups2Pair(t, base, s1, s2);
      ProgressTrans(t, x, z, At(root, base), k - old(transCount), transCount - k);
      RefinesTrans(x, z, At(root, base));
      if NeverM(z) { NeverMRefined(z, At(root, base)); }
      if transCount == old(transCount) { UnopposedSplitRight(t, x, s1, s2); }
    }

    /** The part of `expr_eliminate_dups2` below its recursion. */
    method Dups2Pair(t: Op, base: Path, s1: Path, s2: Path)
      requires Reaches(root, base) && Slots(t, At(root, base), s1, s2)
      requires !IsOp(At(At(root, base), s1), t)
      modifies this
      ensures Reaches(root, base) && root == Put(old(root), base, At(root, base))
      ensures transCount >= old(transCount)
      ensures Progress(t, old(At(root, base)), At(root, base), transCount - old(transCount))
      ensures RefinesValue(old(At(root, base)), At(root, base))
      ensures transCount == old(transCount) && s1 != s2 && IsConnective(At(At(root, base), s1)) ==>
                !Opposes(t, At(At(root, base), s1), At(At(root, base), s2)) && OpposeFree(At(At(root, base), s1))
      ensures OpposeFree(old(At(root, base))) ==> transCount == old(transCount)
      ensures LeavesFree(t, old(At(root, base))) && transCount > old(transCount) ==> NeverM(At(root, base))
      decreases Size(At(root, base)), 0, 1
    {
      hide OpposeFree, Unopposed;
      ghost var x := At(root, base);
      var p1, p2 := base + s1, base + s2;
      ReachesConcat(root, base, s1);
      SameSpineRefl(t, x);
      PutAt(root, base);
      if s1 == s2 || !IsConnective(At(root, p1)) {
        return;
      }
      Dups2Nested(t, base, s1);
      ghost var y, j := At(root, base), transCount;
      SlotsKept(t, x, y, s1, s2);
      ReachesConcat(root, base, s1);
      ReachesConcat(root, base, s2);
      if Opposes(t, At(root, p1), At(root, p2)) {
        if OpposeFree(x) { OpposeFreePair(t, x, s1, s2); }
        OpposeStep(t, y, s1, s2);
        AtPut(old(root), base, y);
        root := Put(root, p1, Neutral(OtherOp(t)));
        AtPut(old(root), base, Put(y, s1, Neutral(OtherOp(t))));
        transCount := transCount + 1;
        ProgressTrans(t, x, y, At(root, base), j - old(transCount), 1);
        RefinesTrans(x, y, At(root, base));
      }
    }

    method Dups2Nested(t: Op, base: Path, s: Path)
      requires Reaches(root, base) && IsOp(At(root, base), t) && Spine(t, At(root, base), s)
      requires Reaches(At(root, base), s)
      requires IsConnective(At(At(root, base), s)) && !IsOp(At(At(root, base), s), t)
      modifies this
      ensures Reaches(root, base) && root == Put(old(root), base, At(root, base))
      ensures transCount >= old(transCount)
      ensures Progress(t, old(At(root, base)), At(root, base), transCount - old(transCount))
      ensures RefinesValue(old(At(root, base)), At(root, base))
      ensures Reaches(At(root, base), s) && IsConnective(At(At(root, base), s))
      ensures transCount == old(transCount) ==> OpposeFree(At(At(root, base), s))
      ensures OpposeFree(old(At(root, base))) ==> transCount == old(transCount)
      ensures OpposeFree(old(At(At(root, base), s))) ==> transCount == old(transCount)
      decreases Size(At(root, base)), 0, 0
    {
      ghost var x := At(root, base);
      ReachesConcat(root, base, s);
      var p := base + s;
      var u := OpOf(At(root, p));
      SizePut(x, s, At(x, s));
      if OpposeFree(x) { OpposeFreeBelow(x, s); }
      Dups2(u, p, [], []);
      ghost var y := At(root, p);
      NestedStep(t, x, s, u, y, transCount - old(transCount));
      NestedRefines(x, s, y);
      if transCount == old(transCount) { UnopposedAll(u, y); }
      AtPut(x, s, y);
      AtPut(old(root), base, Put(x, s, y));
    }

    /** `expr_eliminate_dups`: repeat both passes until neither finds anything. Each useful round
        leaves a constant behind, so tidying it makes the tree strictly smaller. */
    method EliminateDups()
      modifies this
      ensures RefinesValue(old(root), root)
      ensures Size(root) <= Size(old(root))
      ensures transCount == old(transCount)
      ensures DupFree(root) && OpposeFree(root) && NoRepeats(root) && NoOpposites(root)
      ensures root == old(root) <==> DupFree(old(root)) && OpposeFree(old(root))
      ensures SimpleNots(old(root)) ==> SimpleNots(root)
      ensures Symbols(root) <= WithConstants(Symbols(old(root)))
      ensures OpposedAtRoot(old(root)) ==> NeverM(root)
    {
      hide DupFree, OpposeFree, Merged, Unopposed;
      var oldCount := transCount;
      while true
        invariant RefinesValue(old(root), root)
        invariant Size(root) <= Size(old(root))
        invariant SimpleNots(old(root)) ==> SimpleNots(root)
        invariant DupFree(old(root)) && OpposeFree(old(root)) ==> root == old(root)
        invariant Symbols(root) <= WithConstants(Symbols(old(root)))
        invariant OpposedAtRoot(old(root)) ==> root == old(root) || NeverM(root)
        decreases Size(root)
      {
        transCount := 0;
        ghost var before := root;
        if IsConnective(root) {
          Dups1(OpOf(root), [], [], []);
          ghost var between := root;
          Dups2(OpOf(root), [], [], []);
          RefinesTrans(before, between, root);
        }
        RefinesTrans(old(root), before, root);
        if NeverM(before) { NeverMRefined(before, root); }
        if transCount == 0 {
          if IsConnective(root) {
            MergedAll(OpOf(root), root);
            UnopposedAll(OpOf(root), root);
          } else {
            AtomDupFree(root);
          }
          break;
        }
        ghost var bulky := root;
        ElimYnExact(root);
        ElimYnSymbols(root);
        if SimpleNots(root) { SimpleNotsElimYn(root); }
        root := ElimYn(root);
        forall v: Valuation | WellFormed(v) ensures Eval(root, v) == Eval(bulky, v) {
          ElimYnKeepsValue(bulky, v);
        }
        if NeverM(bulky) { NeverMRefined(bulky, root); }
        RefinesTrans(old(root), bulky, root);
      }
      transCount := oldCount;
      DupFreeNoRepeats(root);
      OpposeFreeNoOpposites(root);
    }
  }
}
