/** What the recursive definition of symbol values guarantees. */
module SymbolTheorems {
  import opened Options
  import opened Exprs
  import opened SymbolTable
  import opened SymbolSpec

  /** No boolean is ever `m`, and without modules no tristate is either. */
  lemma NeverM(u: Setup, v: Values, s: Symbol)
    requires Solves(u, v) && EffType(s, u.modules) == Boolean
    ensures v(s).tri != Mod
  {
    assert v(s) == Step(u, v, s);
  }

  /** The computed values are a valuation under which the optimiser is proved correct. */
  lemma ReadingIsWellFormed(u: Setup, v: Values)
    requires Solves(u, v)
    ensures WellFormed(Reading(v, u.modules))
  {
    var r := Reading(v, u.modules);
    forall s: Symbol ensures s.stype() == Boolean ==> r.tri(s) != Mod {
      if s.stype() == Boolean { NeverM(u, v, s); }
    }
    forall s: Symbol ensures HasTruth(s) ==> r.str(s) == TriName(r.tri(s)) {
      assert r.str(s) == StringValue(s, v(s), u.modules) && r.tri(s) == v(s).tri;
      if HasTruth(s) && u.modules == No { NeverM(u, v, s); }
    }
    forall s: Symbol ensures s.Constant? ==> r.str(s) == s.name {
      assert v(s) == Step(u, v, s);
    }
    assert v(YesSym) == Step(u, v, YesSym) && v(ModSym) == Step(u, v, ModSym) && v(NoSym) == Step(u, v, NoSym);
  }

  /* ---------- selects ---------- */

  /** One alternative of a reverse dependency. */
  datatype Term = Term(target: Symbol, cond: Expr)

  /** `rev_dep.expr` of every symbol after `expr_alloc_or` has added the terms one by one. */
  function Accumulate(terms: seq<Term>): map<Symbol, Expr> {
    if terms == [] then map[]
    else AddTerm(Accumulate(terms[..|terms| - 1]), terms[|terms| - 1])
  }

  function AddTerm(m: map<Symbol, Expr>, t: Term): map<Symbol, Expr> {
    m[t.target := if t.target in m then Or(m[t.target], t.cond) else t.cond]
  }

  function RevDepOf(m: map<Symbol, Expr>, s: Symbol): Option<Expr> {
    if s in m then Some(m[s]) else None
  }

  function RevValue(rev: Option<Expr>, val: Valuation): Tristate {
    if rev.None? then No else Eval(rev.value, val)
  }

  /** The reverse dependency is the strongest of its terms, and `n` without any. */
  lemma {:induction false} AccumulateValue(terms: seq<Term>, s: Symbol, val: Valuation)
    ensures var x := RevValue(RevDepOf(Accumulate(terms), s), val);
            && (forall i :: 0 <= i < |terms| && terms[i].target == s ==> x >= Eval(terms[i].cond, val))
            && (x == No || exists i :: 0 <= i < |terms| && terms[i].target == s && x == Eval(terms[i].cond, val))
  {
    if terms != [] {
      AccumulateValue(terms[..|terms| - 1], s, val);
      assert forall i :: 0 <= i < |terms| - 1 ==> terms[..|terms| - 1][i] == terms[i];
    }
  }

  lemma AccumulateAppend(terms: seq<Term>, t: Term)
    ensures Accumulate(terms + [t]) == AddTerm(Accumulate(terms), t)
  {
    assert (terms + [t])[..|terms|] == terms;
  }

  /** Without a prompt or default, a bool or tristate symbol is what its reverse dependency says, and
      never less than that. */
  lemma RaisedByReverse(u: Setup, v: Values, s: Symbol)
    requires Solves(u, v) && s in u.tab && HasTruth(s)
    ensures v(s).tri >= RevValue(u.tab[s].revDep, Reading(v, u.modules))
    ensures u.tab[s].props == [] ==>
              var rev := RevValue(u.tab[s].revDep, Reading(v, u.modules));
              v(s).tri == PromoteUnless(rev, EffType(s, u.modules) != Boolean)
  {
    assert v(s) == Step(u, v, s);
  }

  /** A bool or tristate symbol is at least as strong as each of its terms asks, and no term it
      has not got can raise it: without a prompt or default it is exactly the strongest one, where
      a boolean takes `m` for `y`. */
  lemma TermsHonoured(u: Setup, v: Values, s: Symbol, terms: seq<Term>)
    requires Solves(u, v) && s in u.tab && HasTruth(s)
    requires u.tab[s].revDep == RevDepOf(Accumulate(terms), s)
    ensures forall i :: 0 <= i < |terms| && terms[i].target == s ==>
              v(s).tri >= Eval(terms[i].cond, Reading(v, u.modules))
    ensures u.tab[s].props == [] && v(s).tri != No ==>
              exists i :: 0 <= i < |terms| && terms[i].target == s &&
                v(s).tri == PromoteUnless(Eval(terms[i].cond, Reading(v, u.modules)), EffType(s, u.modules) != Boolean)
  {
    RaisedByReverse(u, v, s);
    AccumulateValue(terms, s, Reading(v, u.modules));
  }

  /* ---------- changing one value ---------- */

  function SetUser(u: Setup, s: Symbol, val: Tristate): Setup {
    var text := if s in u.user then u.user[s].val else "";
    u.(user := u.user[s := SymValue(text, val)])
  }

  /** The user value of `s` is read only when `s` itself is evaluated. */
  lemma OthersIgnoreUser(u: Setup, s: Symbol, val: Tristate, v: Values, t: Symbol)
    requires t != s
    ensures Step(SetUser(u, s, val), v, t) == Step(u, v, t)
  {
  }

  /** What the user sets for `s` cannot reach the symbols that `s` depends on. */
  lemma {:induction false} EarlierUnaffected(u: Setup, rank: map<Symbol, nat>, v: Values, w: Values, s: Symbol,
                                             val: Tristate, t: Symbol)
    requires Acyclic(u.tab, rank) && Solves(u, v) && Solves(SetUser(u, s, val), w)
    requires s in rank && t != s && (t in rank ==> rank[t] <= rank[s]) && (t !in rank ==> t !in u.tab)
    ensures v(t) == w(t)
    decreases RankOf(rank, t)
  {
    var x := SetUser(u, s, val);
    if t in u.tab {
      assert Falls(u.tab, rank, t);
      forall d | d in Edges(u.tab[t]) ensures v(d) == w(d) {
        EarlierUnaffected(u, rank, v, w, s, val, d);
      }
    }
    StepDepends(x, v, w, t);
    assert v(t) == Step(u, v, t) && w(t) == Step(x, w, t);
    OthersIgnoreUser(u, s, val, v, t);
  }

  /** So the new value of `s` comes from one step over the old values. */
  lemma NewValue(u: Setup, rank: map<Symbol, nat>, v: Values, w: Values, s: Symbol, val: Tristate)
    requires Acyclic(u.tab, rank) && Solves(u, v) && Solves(SetUser(u, s, val), w) && s in u.tab
    ensures w(s) == Step(SetUser(u, s, val), v, s)
  {
    assert Falls(u.tab, rank, s);
    forall t | t in Edges(u.tab[s]) ensures v(t) == w(t) {
      EarlierUnaffected(u, rank, v, w, s, val, t);
    }
    StepDepends(SetUser(u, s, val), v, w, s);
    assert w(s) == Step(SetUser(u, s, val), w, s);
  }

  /** `sym_tristate_within_range` for a symbol outside choices. */
  predicate WithinRange(s: Symbol, val: Tristate, visible: Tristate, rev: Tristate, modules: Tristate) {
    var t := EffType(s, modules);
    && visible != No
    && (t == Boolean || t == TristateType)
    && !(t == Boolean && val == Mod)
    && !(visible <= rev)
    && rev <= val <= visible
  }

  /** An accepted value is the value the symbol then has. */
  lemma AcceptedIsHonoured(u: Setup, rank: map<Symbol, nat>, v: Values, w: Values, s: Symbol, val: Tristate)
    requires Acyclic(u.tab, rank) && Solves(u, v) && Solves(SetUser(u, s, val), w)
    requires s in u.tab && s.stype() != Unknown
    requires WithinRange(s, val, Visibility(u, v, s), ReverseDep(u, v, s), u.modules)
    ensures w(s).tri == val
  {
    NewValue(u, rank, v, w, s, val);
  }

  /** Confirming the value a symbol already has is accepted without any test and clears nothing. All
      cached values are still right exactly when the visibility or the selects carry that value. */
  lemma ConfirmedIsKept(u: Setup, rank: map<Symbol, nat>, v: Values, w: Values, s: Symbol)
    requires Acyclic(u.tab, rank) && Solves(u, v) && Solves(SetUser(u, s, v(s).tri), w)
    requires s in u.tab && HasTruth(s)
    ensures var vis, rev := Visibility(u, v, s), ReverseDep(u, v, s);
            (forall t: Symbol :: w(t) == v(t)) <==> vis == No || v(s).tri <= vis || v(s).tri == rev
  {
    NewValue(u, rank, v, w, s, v(s).tri);
    assert v(s) == Step(u, v, s);
    if EffType(s, u.modules) == Boolean { NeverM(u, v, s); }
    if w(s) == v(s) {
      forall t: Symbol ensures w(t) == v(t) { OthersFollow(u, rank, v, w, s, v(s).tri, t); }
    }
  }

  /** A symbol prompted for at `m`, with the default `y` and nothing set by the user. */
  function PromptedAtM(s: Symbol): Setup {
    var d := Definition([Prompt(Some(Sym(ModSym))), Default(None, Sym(YesSym))], None, None);
    var c := Definition([], None, None);
    Setup(map[YesSym := c, ModSym := c, NoSym := c, s := d], map[], Yes)
  }

  /** There the condition fails: the default is not cut down to the visibility, a user value is, so
      confirming the `y` makes it `m`. */
  lemma ConfirmingCanChange(s: Symbol, rank: map<Symbol, nat>)
    requires s.stype() == TristateType && rank == map[YesSym := 0, ModSym := 0, NoSym := 0, s := 1]
    ensures var u := PromptedAtM(s);
            && Acyclic(u.tab, rank) && Visibility(u, PureValues(u, rank), s) == Mod
            && PureValue(u, rank, s).tri == Yes
            && PureValue(SetUser(u, s, Yes), rank, s).tri == Mod
  {
    var u := PromptedAtM(s);
    var d := u.tab[s];
    assert d.props[1..] == [Default(None, Sym(YesSym))];
    assert PropsEdges(d.props) == {ModSym} + PropsEdges(d.props[1..]);
    assert PropsEdges(d.props[1..][1..]) == {};
    assert Edges(d) == {ModSym, YesSym};
    forall t | t in u.tab ensures Falls(u.tab, rank, t) {
      if t != s { assert Edges(u.tab[t]) == {}; }
    }
    var x := SetUser(u, s, Yes);
    PureSolves(u, rank);
    PureSolves(x, rank);
    PromptedAtMValue(u, PureValues(u, rank), s);
    PromptedAtMValue(x, PureValues(x, rank), s);
  }

  lemma PromptedAtMValue(u: Setup, v: Values, s: Symbol)
    requires s.stype() == TristateType && Solves(u, v) && u.modules == Yes
    requires u.tab == PromptedAtM(s).tab && (s in u.user ==> u.user[s].tri == Yes)
    ensures Visibility(u, v, s) == Mod
    ensures v(s).tri == if s in u.user then Mod else Yes
  {
    var r := Reading(v, u.modules);
    var props := u.tab[s].props;
    assert v(ModSym) == Step(u, v, ModSym) && v(YesSym) == Step(u, v, YesSym) && v(s) == Step(u, v, s);
    assert PromptOr(props, 0, r) == No && PromptOr(props, 1, r) == Mod && PromptOr(props, 2, r) == Mod;
    assert FirstDefault(props, 1, r) == 1 && FirstDefault(props, 0, r) == 1;
    assert ReverseDep(u, v, s) == No;
  }

  /** If the symbol itself keeps its value, so does every other one: the cache needed no clearing. */
  lemma {:induction false} OthersFollow(u: Setup, rank: map<Symbol, nat>, v: Values, w: Values, s: Symbol,
                                        val: Tristate, t: Symbol)
    requires Acyclic(u.tab, rank) && Solves(u, v) && Solves(SetUser(u, s, val), w)
    requires v(s) == w(s)
    ensures v(t) == w(t)
    decreases RankOf(rank, t)
  {
    if t != s {
      var x := SetUser(u, s, val);
      if t in u.tab {
        assert Falls(u.tab, rank, t);
        forall d | d in Edges(u.tab[t]) ensures v(d) == w(d) {
          OthersFollow(u, rank, v, w, s, val, d);
        }
      }
      StepDepends(x, v, w, t);
      assert v(t) == Step(u, v, t) && w(t) == Step(x, w, t);
      OthersIgnoreUser(u, s, val, v, t);
    }
  }
}
