/** The value of every symbol as a recursive definition: what `sym_calc_value` computes once the
    caching is taken away. Choices and ranges are not part of this model. */
module SymbolSpec {
  import opened Options
  import opened Exprs
  import opened SymbolTable

  /** `struct symbol_value` */
  datatype SymValue = SymValue(val: string, tri: Tristate)

  /** The properties of all symbols, the values the user has set, and `modules_val`. */
  datatype Setup = Setup(tab: Table, user: map<Symbol, SymValue>, modules: Tristate)

  type Values = Symbol -> SymValue

  /** `sym_get_string_value` */
  function StringValue(s: Symbol, x: SymValue, modules: Tristate): string {
    if HasTruth(s) then
      (if x.tri == No then "n" else if x.tri == Yes then "y" else if modules == No then "n" else "m")
    else x.val
  }

  /** How expressions read the values. */
  function Reading(v: Values, modules: Tristate): Valuation {
    Valuation((s: Symbol) => v(s).tri, (s: Symbol) => StringValue(s, v(s), modules))
  }

  /** `sym_get_type`: without modules a tristate is a boolean. */
  function EffType(s: Symbol, modules: Tristate): SymType {
    if s.stype() == TristateType && modules == No then Boolean else s.stype()
  }

  /** Or of the first `i` prompts. */
  function PromptOr(props: seq<Property>, i: nat, val: Valuation): Tristate
    requires i <= |props|
  {
    if i == 0 then No
    else OrT(PromptOr(props, i - 1, val), if props[i - 1].Prompt? then EvalOpt(props[i - 1].visible, val) else No)
  }

  /** A default whose condition is not `n`. */
  predicate Applies(p: Property, val: Valuation) {
    p.Default? && EvalOpt(p.visible, val) != No
  }

  /** Index of the first visible default from `i` on, or the length. */
  function FirstDefault(props: seq<Property>, i: nat, val: Valuation): (k: nat)
    requires i <= |props|
    ensures i <= k <= |props|
    ensures k < |props| ==> Applies(props[k], val)
    ensures forall j :: i <= j < k ==> !Applies(props[j], val)
    decreases |props| - i
  {
    if i == |props| then i
    else if props[i].Default? && EvalOpt(props[i].visible, val) != No then i
    else FirstDefault(props, i + 1, val)
  }

  function PromoteUnless(t: Tristate, keepMod: bool): Tristate {
    if keepMod then t else Promote(t)
  }

  function Visibility(u: Setup, v: Values, s: Symbol): Tristate
    requires s in u.tab
  {
    var props := u.tab[s].props;
    PromoteUnless(PromptOr(props, |props|, Reading(v, u.modules)), EffType(s, u.modules) == TristateType)
  }

  /** `dir_dep.tri` */
  function DirectDep(u: Setup, v: Values, s: Symbol): Tristate
    requires s in u.tab
  {
    PromoteUnless(EvalOpt(u.tab[s].dirDep, Reading(v, u.modules)), false)
  }

  /** `rev_dep.tri`: a missing expression is `n` here. */
  function ReverseDep(u: Setup, v: Values, s: Symbol): Tristate
    requires s in u.tab
  {
    var r := u.tab[s].revDep;
    PromoteUnless(if r.None? then No else Eval(r.value, Reading(v, u.modules)), EffType(s, u.modules) != Boolean)
  }

  function DefaultIndex(u: Setup, v: Values, s: Symbol): (k: nat)
    requires s in u.tab
    ensures k <= |u.tab[s].props|
    ensures k < |u.tab[s].props| ==> u.tab[s].props[k].Default?
  {
    FirstDefault(u.tab[s].props, 0, Reading(v, u.modules))
  }

  /** User value under the visibility, or the first visible default. */
  function BaseTri(u: Setup, v: Values, s: Symbol): Tristate
    requires s in u.tab
  {
    var vis, k, props := Visibility(u, v, s), DefaultIndex(u, v, s), u.tab[s].props;
    if vis != No && s in u.user then AndT(u.user[s].tri, vis)
    else if k < |props| then
      AndT(Eval(props[k].value, Reading(v, u.modules)), EvalOpt(props[k].visible, Reading(v, u.modules)))
    else No
  }

  function TruthValue(u: Setup, v: Values, s: Symbol): Tristate
    requires s in u.tab
  {
    PromoteUnless(OrT(BaseTri(u, v, s), ReverseDep(u, v, s)), EffType(s, u.modules) != Boolean)
  }

  function TextValue(u: Setup, v: Values, s: Symbol): string
    requires s in u.tab
  {
    var vis, k, props := Visibility(u, v, s), DefaultIndex(u, v, s), u.tab[s].props;
    if vis != No && s in u.user then u.user[s].val
    else if k < |props| && props[k].value.Sym? then v(props[k].value.sym).val
    else ""
  }

  /** One evaluation of a symbol from the values of the symbols it refers to. */
  function Step(u: Setup, v: Values, s: Symbol): SymValue {
    if s == YesSym then SymValue("y", Yes)
    else if s == ModSym then SymValue("m", Mod)
    else if s == NoSym then SymValue("n", No)
    else if s.stype() == Unknown || s !in u.tab then SymValue(s.name, No)
    else if HasTruth(s) then SymValue("n", TruthValue(u, v, s))
    else SymValue(TextValue(u, v, s), No)
  }

  /** `v` gives every symbol the value its definition asks for. */
  ghost predicate Solves(u: Setup, v: Values) {
    forall s: Symbol {:trigger Step(u, v, s)} :: v(s) == Step(u, v, s)
  }

  /** `n` rounds of evaluating everything from scratch. */
  ghost function Rounds(u: Setup, n: nat): Values {
    if n == 0 then (s: Symbol) => SymValue("", No)
    else var w := Rounds(u, n - 1); (s: Symbol) => Step(u, w, s)
  }

  /** The pure recursive definition: a symbol of rank `r` is settled after `r + 1` rounds. */
  ghost function PureValue(u: Setup, rank: map<Symbol, nat>, s: Symbol): SymValue {
    if s in rank then Rounds(u, rank[s] + 1)(s) else Rounds(u, 1)(s)
  }

  ghost function PureValues(u: Setup, rank: map<Symbol, nat>): Values {
    (s: Symbol) => PureValue(u, rank, s)
  }

  /* ---------- a step looks only at the symbols it names ---------- */

  /** Everything evaluated for `s` is followed by the dependency check as well, apart from the three
      constants, which are never evaluated. */
  predicate Covered(tab: Table, s: Symbol)
    requires s in tab
  {
    forall t :: t in SymbolsOpt(tab[s].dirDep) ==> t in Edges(tab[s]) || (IsTriConstant(t) && t in tab)
  }

  ghost predicate Falls(tab: Table, rank: map<Symbol, nat>, s: Symbol)
    requires s in tab
  {
    && s in rank && Covered(tab, s)
    && forall t :: t in Edges(tab[s]) ==> t in tab && t in rank && rank[t] < rank[s]
  }

  ghost predicate Acyclic(tab: Table, rank: map<Symbol, nat>) {
    forall s {:trigger Falls(tab, rank, s)} :: s in tab ==> Falls(tab, rank, s)
  }

  ghost predicate AgreeOn(v: Values, w: Values, d: set<Symbol>) {
    forall t :: t in d ==> v(t) == w(t)
  }

  lemma {:induction false} EvalDepends(e: Expr, v: Values, w: Values, modules: Tristate)
    requires AgreeOn(v, w, Symbols(e))
    ensures Eval(e, Reading(v, modules)) == Eval(e, Reading(w, modules))
  {
    match e
    case Not(a) => EvalDepends(a, v, w, modules);
    case And(l, r) => EvalDepends(l, v, w, modules); EvalDepends(r, v, w, modules);
    case Or(l, r) => EvalDepends(l, v, w, modules); EvalDepends(r, v, w, modules);
    case _ =>
  }

  lemma EvalOptDepends(e: Option<Expr>, v: Values, w: Values, modules: Tristate)
    requires AgreeOn(v, w, SymbolsOpt(e))
    ensures EvalOpt(e, Reading(v, modules)) == EvalOpt(e, Reading(w, modules))
  {
    if e.Some? { EvalDepends(e.value, v, w, modules); }
  }

  lemma {:induction false} PromptOrDepends(props: seq<Property>, i: nat, v: Values, w: Values, modules: Tristate)
    requires i <= |props| && AgreeOn(v, w, PropsEdges(props))
    ensures PromptOr(props, i, Reading(v, modules)) == PromptOr(props, i, Reading(w, modules))
  {
    if i > 0 {
      PromptOrDepends(props, i - 1, v, w, modules);
      PropsEdgesAppend(props, i - 1);
      if props[i - 1].Prompt? { EvalOptDepends(props[i - 1].visible, v, w, modules); }
    }
  }

  lemma {:induction false} FirstDefaultDepends(props: seq<Property>, i: nat, v: Values, w: Values, modules: Tristate)
    requires i <= |props| && AgreeOn(v, w, PropsEdges(props))
    ensures FirstDefault(props, i, Reading(v, modules)) == FirstDefault(props, i, Reading(w, modules))
    decreases |props| - i
  {
    if i < |props| {
      PropsEdgesAppend(props, i);
      if props[i].Default? { EvalOptDepends(props[i].visible, v, w, modules); }
      FirstDefaultDepends(props, i + 1, v, w, modules);
    }
  }

  lemma StepDepends(u: Setup, v: Values, w: Values, s: Symbol)
    requires s in u.tab ==> AgreeOn(v, w, Edges(u.tab[s]))
    ensures Step(u, v, s) == Step(u, w, s)
    ensures s in u.tab ==> Visibility(u, v, s) == Visibility(u, w, s) && ReverseDep(u, v, s) == ReverseDep(u, w, s)
    ensures s in u.tab && AgreeOn(v, w, SymbolsOpt(u.tab[s].dirDep)) ==> DirectDep(u, v, s) == DirectDep(u, w, s)
  {
    if s in u.tab {
      var d := u.tab[s];
      PromptOrDepends(d.props, |d.props|, v, w, u.modules);
      FirstDefaultDepends(d.props, 0, v, w, u.modules);
      EvalOptDepends(d.revDep, v, w, u.modules);
      if AgreeOn(v, w, SymbolsOpt(d.dirDep)) { EvalOptDepends(d.dirDep, v, w, u.modules); }
      var k := DefaultIndex(u, v, s);
      if k < |d.props| {
        PropsEdgesAppend(d.props, k);
        EvalDepends(d.props[k].value, v, w, u.modules);
        EvalOptDepends(d.props[k].visible, v, w, u.modules);
      }
    }
  }

  /* ---------- in an acyclic table there is exactly one solution ---------- */

  function RankOf(rank: map<Symbol, nat>, s: Symbol): nat {
    if s in rank then rank[s] else 0
  }

  /** Rounds beyond the rank change nothing. */
  lemma {:induction false} RoundsSettle(u: Setup, rank: map<Symbol, nat>, n: nat, s: Symbol)
    requires Acyclic(u.tab, rank) && RankOf(rank, s) < n
    ensures Rounds(u, n)(s) == PureValue(u, rank, s)
    decreases n
  {
    var r := RankOf(rank, s);
    var v, w := Rounds(u, n - 1), Rounds(u, r);
    if s in u.tab {
      assert Falls(u.tab, rank, s);
      forall t | t in Edges(u.tab[s]) ensures v(t) == w(t) {
        RoundsSettle(u, rank, n - 1, t);
        RoundsSettle(u, rank, r, t);
      }
    }
    StepDepends(u, v, w, s);
  }

  lemma PureSolves(u: Setup, rank: map<Symbol, nat>)
    requires Acyclic(u.tab, rank)
    ensures Solves(u, PureValues(u, rank))
  {
    var v := PureValues(u, rank);
    forall s: Symbol ensures v(s) == Step(u, v, s) {
      var w := Rounds(u, RankOf(rank, s));
      if s in u.tab {
        assert Falls(u.tab, rank, s);
        forall t | t in Edges(u.tab[s]) ensures v(t) == w(t) {
          RoundsSettle(u, rank, RankOf(rank, s), t);
        }
      }
      StepDepends(u, v, w, s);
    }
  }

  lemma {:induction false} SolutionUnique(u: Setup, rank: map<Symbol, nat>, v: Values, w: Values, s: Symbol)
    requires Acyclic(u.tab, rank) && Solves(u, v) && Solves(u, w)
    ensures v(s) == w(s)
    decreases RankOf(rank, s)
  {
    if s in u.tab {
      assert Falls(u.tab, rank, s);
      forall t | t in Edges(u.tab[s]) ensures v(t) == w(t) {
        SolutionUnique(u, rank, v, w, t);
      }
    }
    StepDepends(u, v, w, s);
    assert v(s) == Step(u, v, s) && w(s) == Step(u, w, s);
  }
}
