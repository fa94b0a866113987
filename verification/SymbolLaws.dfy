/** What a symbol's value is, said of the properties, the user value and the type themselves. */
module SymbolLaws {
  import opened Options
  import opened Exprs
  import opened SymbolTable
  import opened SymbolSpec
  import opened SymbolTheorems

  /** Only `y` and `n` will do: a boolean, or a tristate while modules are off. */
  predicate TwoValued(u: Setup, s: Symbol) {
    s.stype() == Boolean || (s.stype() == TristateType && u.modules == No)
  }

  /** For such a symbol `m` becomes `y`. */
  function Lifted(u: Setup, s: Symbol, t: Tristate): Tristate {
    if t == Mod && TwoValued(u, s) then Yes else t
  }

  /** The condition of the property, and for a default what it asks for. */
  function Condition(u: Setup, v: Values, p: Property): Tristate {
    if p.visible.None? then Yes else Eval(p.visible.value, Reading(v, u.modules))
  }

  /** `r` is the strongest condition of all prompts, `n` without any. */
  ghost predicate StrongestPrompt(u: Setup, v: Values, props: seq<Property>, r: Tristate) {
    && (forall j :: 0 <= j < |props| && props[j].Prompt? ==> Condition(u, v, props[j]) <= r)
    && (r == No || exists j :: 0 <= j < |props| && props[j].Prompt? && Condition(u, v, props[j]) == r)
  }

  lemma {:induction false} PromptOrStrongest(u: Setup, v: Values, props: seq<Property>, i: nat)
    requires i <= |props|
    ensures StrongestPrompt(u, v, props[..i], PromptOr(props, i, Reading(v, u.modules)))
  {
    if i > 0 {
      var r, q := PromptOr(props, i - 1, Reading(v, u.modules)), PromptOr(props, i, Reading(v, u.modules));
      PromptOrStrongest(u, v, props, i - 1);
      assert forall j :: 0 <= j < i - 1 ==> props[..i][j] == props[..i - 1][j];
      assert props[..i][i - 1] == props[i - 1];
      if q != No && q == r {
        var j :| 0 <= j < i - 1 && props[..i - 1][j].Prompt? && Condition(u, v, props[..i - 1][j]) == r;
        assert props[..i][j].Prompt? && Condition(u, v, props[..i][j]) == q;
      }
    }
  }

  /** A symbol is visible as far as its strongest prompt; only a tristate with modules can be visible at `m`. */
  lemma VisibilityLaw(u: Setup, v: Values, s: Symbol) returns (r: Tristate)
    requires s in u.tab
    ensures StrongestPrompt(u, v, u.tab[s].props, r)
    ensures Visibility(u, v, s) == if r == Mod && !(s.stype() == TristateType && u.modules != No) then Yes else r
  {
    var props := u.tab[s].props;
    r := PromptOr(props, |props|, Reading(v, u.modules));
    PromptOrStrongest(u, v, props, |props|);
    assert props[..|props|] == props;
  }

  /** What selects ask is the value of the reverse dependency, `n` without one; missing direct dependencies are met. */
  lemma DependencyLaw(u: Setup, v: Values, s: Symbol)
    requires s in u.tab
    ensures var r, d := u.tab[s].revDep, u.tab[s].dirDep;
            && ReverseDep(u, v, s) == (if r.None? then No else Lifted(u, s, Eval(r.value, Reading(v, u.modules))))
            && DirectDep(u, v, s) == (if d.None? then Yes else Promote(Eval(d.value, Reading(v, u.modules))))
  {
  }

  /** The user value counts. */
  predicate UserCounts(u: Setup, v: Values, s: Symbol)
    requires s in u.tab
  {
    Visibility(u, v, s) != No && s in u.user
  }

  /** The default at `k` is the first of the properties that is a default with a condition that is not `n`. */
  ghost predicate FirstApplies(u: Setup, v: Values, props: seq<Property>, k: nat) {
    && k < |props| && props[k].Default? && Condition(u, v, props[k]) != No
    && forall j :: 0 <= j < k && props[j].Default? ==> Condition(u, v, props[j]) == No
  }

  ghost predicate NoneApplies(u: Setup, v: Values, props: seq<Property>) {
    forall j :: 0 <= j < |props| && props[j].Default? ==> Condition(u, v, props[j]) == No
  }

  lemma DefaultIndexLaw(u: Setup, v: Values, s: Symbol, k: nat)
    requires s in u.tab
    ensures FirstApplies(u, v, u.tab[s].props, k) ==> DefaultIndex(u, v, s) == k
    ensures NoneApplies(u, v, u.tab[s].props) ==> DefaultIndex(u, v, s) == |u.tab[s].props|
  {
    var d, props, val := DefaultIndex(u, v, s), u.tab[s].props, Reading(v, u.modules);
    assert d < |props| ==> Applies(props[d], val);
    if FirstApplies(u, v, props, k) { assert Applies(props[k], val); }
  }

  /** A visible symbol with a user value has that value, cut down to its visibility and raised by the selects. */
  lemma UserLaw(u: Setup, v: Values, s: Symbol)
    requires Solves(u, v) && s in u.tab && HasTruth(s) && UserCounts(u, v, s)
    ensures v(s).tri == Lifted(u, s, OrT(AndT(u.user[s].tri, Visibility(u, v, s)), ReverseDep(u, v, s)))
  {
    assert v(s) == Step(u, v, s);
  }

  /** Otherwise it has its first applicable default, as far as the condition of that goes, raised by the selects. */
  lemma DefaultLaw(u: Setup, v: Values, s: Symbol, k: nat)
    requires Solves(u, v) && s in u.tab && HasTruth(s) && !UserCounts(u, v, s) && FirstApplies(u, v, u.tab[s].props, k)
    ensures var p := u.tab[s].props[k];
            v(s).tri == Lifted(u, s, OrT(AndT(Eval(p.value, Reading(v, u.modules)), Condition(u, v, p)),
                                         ReverseDep(u, v, s)))
  {
    assert v(s) == Step(u, v, s);
    DefaultIndexLaw(u, v, s, k);
  }

  /** And without one, what the selects ask. */
  lemma NoDefaultLaw(u: Setup, v: Values, s: Symbol)
    requires Solves(u, v) && s in u.tab && HasTruth(s) && !UserCounts(u, v, s) && NoneApplies(u, v, u.tab[s].props)
    ensures v(s).tri == ReverseDep(u, v, s)
  {
    assert v(s) == Step(u, v, s);
    DefaultIndexLaw(u, v, s, 0);
  }

  /** An int, hex or string symbol: the user's text while visible, else the text of the symbol its first applicable
      default names, else nothing. */
  lemma TextLaw(u: Setup, v: Values, s: Symbol, k: nat)
    requires Solves(u, v) && s in u.tab && s.stype() != Unknown && !HasTruth(s)
    ensures v(s).tri == No
    ensures UserCounts(u, v, s) ==> v(s).val == u.user[s].val
    ensures !UserCounts(u, v, s) && FirstApplies(u, v, u.tab[s].props, k) ==>
              var e := u.tab[s].props[k].value;
              v(s).val == if e.Sym? then v(e.sym).val else ""
    ensures !UserCounts(u, v, s) && NoneApplies(u, v, u.tab[s].props) ==> v(s).val == ""
  {
    assert v(s) == Step(u, v, s);
    DefaultIndexLaw(u, v, s, k);
  }

  /** A symbol nobody defined is `n` and reads as its own name; the three constants are what they are called. */
  lemma UndefinedLaw(u: Setup, v: Values, s: Symbol)
    requires Solves(u, v)
    ensures s.stype() == Unknown && s.name !in ["y", "m", "n"] ==> v(s) == SymValue(s.name, No)
    ensures v(YesSym) == SymValue("y", Yes) && v(ModSym) == SymValue("m", Mod) && v(NoSym) == SymValue("n", No)
  {
    assert v(YesSym) == Step(u, v, YesSym) && v(ModSym) == Step(u, v, ModSym) && v(NoSym) == Step(u, v, NoSym);
    assert v(s) == Step(u, v, s);
  }

  /** Neither a boolean nor, without modules, a tristate is ever `m`. */
  lemma TwoValuedLaw(u: Setup, v: Values, s: Symbol)
    requires Solves(u, v) && TwoValued(u, s)
    ensures v(s).tri != Mod
  {
    NeverM(u, v, s);
  }

  /** The range test accepts exactly the values that setting them leads to, as long as the selects leave a choice. */
  lemma AcceptedExactly(u: Setup, rank: map<Symbol, nat>, v: Values, w: Values, s: Symbol, val: Tristate)
    requires Acyclic(u.tab, rank) && Solves(u, v) && Solves(SetUser(u, s, val), w) && s in u.tab && HasTruth(s)
    ensures WithinRange(s, val, Visibility(u, v, s), ReverseDep(u, v, s), u.modules) <==>
              Visibility(u, v, s) > ReverseDep(u, v, s) && w(s).tri == val
  {
    NewValue(u, rank, v, w, s, val);
  }
}
