/** `sym_calc_value`: the caching, in-place evaluator, proved to compute the recursive definition. */
module SymbolCalc {
  import opened Options
  import opened Exprs
  import opened SymbolTable
  import opened SymbolSpec
  import opened SymbolTheorems
  import opened SymbolLaws

  /** The fields of `struct symbol` that evaluation writes, with SYMBOL_VALID and SYMBOL_WRITE. */
  datatype Cell = Cell(valid: bool, curr: SymValue, visible: Tristate, dir: Tristate, rev: Tristate, write: bool)

  type Cells = map<Symbol, Cell>

  /** Whether the symbol ends up in the written configuration. */
  function Written(u: Setup, v: Values, s: Symbol): bool
    requires s in u.tab
  {
    var k, props := DefaultIndex(u, v, s), u.tab[s].props;
    Visibility(u, v, s) != No ||
    (if HasTruth(s) then ReverseDep(u, v, s) != No || k < |props| else k < |props| && props[k].value.Sym?)
  }

  /** Those are the visible ones, a bool or tristate that a select raises, and those with an applicable default,
      which for an int, hex or string has to name a symbol. */
  lemma WrittenLaw(u: Setup, v: Values, s: Symbol, k: nat)
    requires s in u.tab
    ensures Visibility(u, v, s) != No ==> Written(u, v, s)
    ensures HasTruth(s) && ReverseDep(u, v, s) != No ==> Written(u, v, s)
    ensures FirstApplies(u, v, u.tab[s].props, k) && (HasTruth(s) || u.tab[s].props[k].value.Sym?) ==> Written(u, v, s)
    ensures Visibility(u, v, s) == No && NoneApplies(u, v, u.tab[s].props) ==>
              (Written(u, v, s) <==> HasTruth(s) && ReverseDep(u, v, s) != No)
    ensures Visibility(u, v, s) == No && !HasTruth(s) && FirstApplies(u, v, u.tab[s].props, k) ==>
              (Written(u, v, s) <==> u.tab[s].props[k].value.Sym?)
  {
    DefaultIndexLaw(u, v, s, k);
  }

  /** What a finished cell holds. */
  predicate Settled(u: Setup, v: Values, s: Symbol, c: Cell)
    requires s in u.tab
  {
    && c.curr == v(s)
    && (s.stype() != Unknown ==>
          && c.visible == Visibility(u, v, s) && c.dir == DirectDep(u, v, s)
          && c.rev == ReverseDep(u, v, s) && c.write == Written(u, v, s))
  }

  /** Every cell marked valid is settled, except those still being computed. */
  ghost predicate Consistent(u: Setup, v: Values, cells: Cells, busy: set<Symbol>) {
    && cells.Keys == u.tab.Keys
    && forall s {:trigger Settled(u, v, s, cells[s])} ::
         s in cells && cells[s].valid && s !in busy ==> Settled(u, v, s, cells[s])
  }

  /** In every state, settled or not, no boolean holds `m`. */
  ghost predicate NoBooleanM(cells: Cells) {
    forall s :: s in cells && s.stype() == Boolean ==> cells[s].curr.tri != Mod
  }

  /** The symbols in `d` are constants or evaluated before anything of rank `bound`. */
  ghost predicate Earlier(tab: Table, rank: map<Symbol, nat>, d: set<Symbol>, bound: nat) {
    forall t :: t in d ==> t in tab && (IsTriConstant(t) || (t in rank && rank[t] < bound))
  }

  lemma PropEarlier(tab: Table, rank: map<Symbol, nat>, s: Symbol, i: nat, bound: nat)
    requires s in tab && i < |tab[s].props| && Earlier(tab, rank, Edges(tab[s]), bound)
    ensures Earlier(tab, rank, PropEdges(tab[s].props[i]), bound)
    ensures !tab[s].props[i].Select? ==> Earlier(tab, rank, SymbolsOpt(tab[s].props[i].visible), bound)
  {
    PropsEdgesAppend(tab[s].props, i);
  }

  ghost predicate Later(rank: map<Symbol, nat>, busy: set<Symbol>, bound: nat) {
    forall t :: t in busy ==> t in rank && rank[t] >= bound && !IsTriConstant(t)
  }

  /** `symbol_yes`, `symbol_mod` and `symbol_no` are valid from the start and never cleared. */
  predicate ConstantsValid(cells: Cells) {
    && (YesSym in cells ==> cells[YesSym].valid)
    && (ModSym in cells ==> cells[ModSym].valid)
    && (NoSym in cells ==> cells[NoSym].valid)
  }

  /** Evaluation never invalidates a cell and never touches one that is being computed. */
  ghost predicate Advances(a: Cells, b: Cells, busy: set<Symbol>) {
    forall t :: t in a ==> t in b && (a[t].valid ==> b[t].valid) && (t in busy ==> b[t] == a[t])
  }

  /** The three static symbols carry their values from the start. */
  predicate ConstantsRight(cells: Cells) {
    && (YesSym in cells ==> cells[YesSym].valid && cells[YesSym].curr == SymValue("y", Yes))
    && (ModSym in cells ==> cells[ModSym].valid && cells[ModSym].curr == SymValue("m", Mod))
    && (NoSym in cells ==> cells[NoSym].valid && cells[NoSym].curr == SymValue("n", No))
  }

  function InitialCell(s: Symbol): Cell {
    if IsTriConstant(s) then
      Cell(true, SymValue(s.name, if s == YesSym then Yes else if s == ModSym then Mod else No), No, No, No, false)
    else Cell(false, SymValue("", No), No, No, No, false)
  }

  /** `for_all_symbols` does not reach the three static symbols. */
  function Cleared(cells: Cells): Cells {
    map s | s in cells :: if IsTriConstant(s) then cells[s] else cells[s].(valid := false)
  }

  lemma ClearedConsistent(u: Setup, v: Values, cells: Cells)
    requires cells.Keys == u.tab.Keys && ConstantsRight(cells) && NoBooleanM(cells) && Solves(u, v)
    ensures Consistent(u, v, Cleared(cells), {}) && NoBooleanM(Cleared(cells)) && ConstantsValid(Cleared(cells))
    ensures ConstantsRight(Cleared(cells))
  {
    assert v(YesSym) == Step(u, v, YesSym) && v(ModSym) == Step(u, v, ModSym) && v(NoSym) == Step(u, v, NoSym);
  }

  lemma ConsistentConstants(u: Setup, v: Values, cells: Cells)
    requires Consistent(u, v, cells, {}) && Solves(u, v) && ConstantsValid(cells)
    ensures ConstantsRight(cells)
  {
    assert v(YesSym) == Step(u, v, YesSym) && v(ModSym) == Step(u, v, ModSym) && v(NoSym) == Step(u, v, NoSym);
    if YesSym in cells { assert Settled(u, v, YesSym, cells[YesSym]); }
    if ModSym in cells { assert Settled(u, v, ModSym, cells[ModSym]); }
    if NoSym in cells { assert Settled(u, v, NoSym, cells[NoSym]); }
  }

  /** The dependency check's verdict is what evaluation relies on. */
  lemma CheckedIsAcyclic(tab: Table, rank: map<Symbol, nat>)
    requires Ranked(GraphOf(tab), rank)
    requires forall s :: s in tab ==> Covered(tab, s)
    ensures Acyclic(tab, rank)
  {
    forall s | s in tab ensures Falls(tab, rank, s) {
      assert Covered(tab, s);
      forall t | t in Edges(tab[s]) ensures t in tab && t in rank && rank[t] < rank[s] {
        EdgeFalls(tab, rank, s, t);
      }
    }
  }

  lemma EdgeFalls(tab: Table, rank: map<Symbol, nat>, s: Symbol, t: Symbol)
    requires Ranked(GraphOf(tab), rank) && s in tab && t in Edges(tab[s])
    ensures t in tab && t in rank && s in rank && rank[t] < rank[s]
  {
    var g := GraphOf(tab);
    assert s in g && g[s] == Edges(tab[s]);
    assert t in g[s] && t in g;
  }

  class Engine {
    const tab: Table
    const modules: Tristate
    var user: map<Symbol, SymValue>
    var cells: Cells

    constructor (table: Table, values: map<Symbol, SymValue>, modulesVal: Tristate, ghost rank: map<Symbol, nat>)
      requires Acyclic(table, rank)
      ensures tab == table && user == values && modules == modulesVal && Idle(rank)
    {
      tab, user, modules := table, values, modulesVal;
      cells := map s | s in table :: InitialCell(s);
      new;
      PureSolves(Setting(), rank);
      ClearedConsistent(Setting(), PureValues(Setting(), rank), cells);
      assert cells == Cleared(cells);
    }

    /** Between calls: whatever is marked valid holds the value of the recursive definition. */
    ghost predicate Idle(rank: map<Symbol, nat>)
      reads this
    {
      Ready(PureValues(Setting(), rank), rank, {}, 0)
    }

    /** `sym_clear_all_valid`, after which nothing depends on how the cells were computed. */
    method ClearAllValid(ghost rank: map<Symbol, nat>)
      requires Acyclic(tab, rank) && cells.Keys == tab.Keys && ConstantsRight(cells) && NoBooleanM(cells)
      modifies this`cells
      ensures Idle(rank) && forall s :: s in cells && cells[s].valid ==> IsTriConstant(s)
    {
      PureSolves(Setting(), rank);
      ClearedConsistent(Setting(), PureValues(Setting(), rank), cells);
      cells := Cleared(cells);
    }

    /** Calculate any symbols in any order. */
    method CalcAll(order: seq<Symbol>, ghost rank: map<Symbol, nat>)
      requires Idle(rank) && forall i :: 0 <= i < |order| ==> order[i] in tab
      modifies this`cells
      ensures Idle(rank)
      ensures forall i :: 0 <= i < |order| ==>
                cells[order[i]].valid && cells[order[i]].curr == PureValue(Setting(), rank, order[i])
      ensures forall i :: 0 <= i < |order| ==>
                Settled(Setting(), PureValues(Setting(), rank), order[i], cells[order[i]])
    {
      ghost var v := PureValues(Setting(), rank);
      var i := 0;
      while i < |order|
        invariant 0 <= i <= |order|
        invariant Ready(v, rank, {}, 0)
        invariant forall j :: 0 <= j < i ==> order[j] in cells && cells[order[j]].valid
      {
        CalcOne(order[i], v, rank);
        i := i + 1;
      }
      forall j | 0 <= j < |order| ensures Settled(Setting(), v, order[j], cells[order[j]]) {
        assert Settled(Setting(), v, order[j], cells[order[j]]);
      }
    }

    /** A call of `sym_calc_value` from outside. */
    method CalcOne(s: Symbol, ghost v: Values, ghost rank: map<Symbol, nat>)
      requires Ready(v, rank, {}, 0) && s in tab
      modifies this`cells
      ensures Ready(v, rank, {}, 0) && Advances(old(cells), cells, {}) && s in cells && cells[s].valid
    {
      assert Falls(tab, rank, s);
      CalcValue(s, v, rank, {}, rank[s] + 1);
    }

    /** `sym_set_tristate_value` for a symbol outside choices. */
    method SetTristate(s: Symbol, val: Tristate, ghost rank: map<Symbol, nat>) returns (ok: bool)
      requires Idle(rank) && s in tab && s.stype() != Unknown
      modifies this
      ensures cells.Keys == tab.Keys && NoBooleanM(cells)
      ensures !ok ==> user == old(user) && cells == old(cells)
      ensures ok ==> Setting() == SetUser(old(Setting()), s, val)
      ensures ok && old(cells[s].curr.tri) == val ==> cells == old(cells)
      ensures ok && old(cells[s].curr.tri) != val ==> Idle(rank)
      ensures ok && old(cells[s].curr.tri) != val && old(cells[s].valid) ==>
                PureValue(Setting(), rank, s).tri == val
      ensures old(cells[s].valid) && HasTruth(s) ==>
                var u := old(Setting());
                var v, x := PureValues(u, rank), SetUser(u, s, val);
                ok <==> v(s).tri == val ||
                        (Visibility(u, v, s) > ReverseDep(u, v, s) && PureValue(x, rank, s).tri == val)
    {
      hide Step, Edges, Visibility, ReverseDep, WithinRange, DirectDep, Written, Later;
      if cells[s].valid && HasTruth(s) { AcceptedWhen(s, val, rank); }
      var c := cells[s];
      if c.curr.tri != val && !WithinRange(s, val, c.visible, c.rev, modules) {
        return false;
      }
      ghost var u, v := Setting(), PureValues(Setting(), rank);
      ConsistentConstants(u, v, cells);
      if c.valid { assert Settled(u, v, s, c); }
      user := user[s := SymValue(if s in user then user[s].val else "", val)];
      if c.curr.tri != val {
        ClearAllValid(rank);
        if c.valid {
          PureSolves(Setting(), rank);
          AcceptedIsHonoured(u, rank, v, PureValues(Setting(), rank), s, val);
        }
      }
      return true;
    }

    lemma AcceptedWhen(s: Symbol, val: Tristate, rank: map<Symbol, nat>)
      requires Idle(rank) && s in tab && s in cells && cells[s].valid && HasTruth(s)
      ensures var u := Setting();
              var v, x := PureValues(u, rank), SetUser(u, s, val);
              && cells[s].curr == v(s)
              && (WithinRange(s, val, cells[s].visible, cells[s].rev, modules) <==>
                    Visibility(u, v, s) > ReverseDep(u, v, s) && PureValue(x, rank, s).tri == val)
    {
      var u := Setting();
      var v, x := PureValues(u, rank), SetUser(u, s, val);
      assert Settled(u, v, s, cells[s]);
      PureSolves(x, rank);
      AcceptedExactly(u, rank, v, PureValues(x, rank), s, val);
    }

    ghost function Setting(): Setup
      reads this
    {
      Setup(tab, user, modules)
    }

    /** What holds whenever evaluation of symbols below `bound` may start. */
    ghost predicate Ready(v: Values, rank: map<Symbol, nat>, busy: set<Symbol>, bound: nat)
      reads this
    {
      && Acyclic(tab, rank) && Solves(Setting(), v)
      && Consistent(Setting(), v, cells, busy) && NoBooleanM(cells) && ConstantsValid(cells)
      && Later(rank, busy, bound)
    }

    /** Overwrite the cell of a symbol that is being computed. */
    method Store(s: Symbol, c: Cell,
            ghost v: Values, ghost rank: map<Symbol, nat>, ghost busy: set<Symbol>, ghost bound: nat)
      requires Ready(v, rank, busy, bound) && s in tab && s in busy && c.valid
      requires s.stype() == Boolean ==> c.curr.tri != Mod
      modifies this`cells
      ensures Ready(v, rank, busy, bound) && cells == old(cells)[s := c]
    {
      cells := cells[s := c];
    }

    /** `expr_calc_value` */
    method CalcExpr(e: Expr,
            ghost v: Values, ghost rank: map<Symbol, nat>, ghost busy: set<Symbol>, ghost bound: nat)
      returns (t: Tristate)
      requires Ready(v, rank, busy, bound) && Earlier(tab, rank, Symbols(e), bound)
      modifies this`cells
      ensures Ready(v, rank, busy, bound) && Advances(old(cells), cells, busy)
      ensures t == Eval(e, Reading(v, modules))
      decreases bound, 0, Size(e)
    {
      match e
      case Sym(s) =>
        CalcValue(s, v, rank, busy, bound);
        t := cells[s].curr.tri;
      case Not(a) =>
        var x := CalcExpr(a, v, rank, busy, bound);
        t := NotT(x);
      case And(l, r) =>
        var x, y := CalcBoth(l, r, v, rank, busy, bound);
        t := AndT(x, y);
      case Or(l, r) =>
        var x, y := CalcBoth(l, r, v, rank, busy, bound);
        t := OrT(x, y);
      case Equal(a, b) =>
        var same := SameString(a, b, v, rank, busy, bound);
        t := Truth(same);
      case Unequal(a, b) =>
        var same := SameString(a, b, v, rank, busy, bound);
        t := Truth(!same);
    }

    method CalcBoth(l: Expr, r: Expr,
            ghost v: Values, ghost rank: map<Symbol, nat>, ghost busy: set<Symbol>, ghost bound: nat)
      returns (x: Tristate, y: Tristate)
      requires Ready(v, rank, busy, bound) && Earlier(tab, rank, Symbols(l) + Symbols(r), bound)
      modifies this`cells
      ensures Ready(v, rank, busy, bound) && Advances(old(cells), cells, busy)
      ensures x == Eval(l, Reading(v, modules)) && y == Eval(r, Reading(v, modules))
      decreases bound, 0, Size(l) + Size(r)
    {
      x := CalcExpr(l, v, rank, busy, bound);
      y := CalcExpr(r, v, rank, busy, bound);
    }

    /** The string comparison of two symbols. */
    method SameString(a: Symbol, b: Symbol,
            ghost v: Values, ghost rank: map<Symbol, nat>, ghost busy: set<Symbol>, ghost bound: nat)
      returns (same: bool)
      requires Ready(v, rank, busy, bound) && Earlier(tab, rank, {a, b}, bound)
      modifies this`cells
      ensures Ready(v, rank, busy, bound) && Advances(old(cells), cells, busy)
      ensures same == (StringValue(a, v(a), modules) == StringValue(b, v(b), modules))
      decreases bound, 0, 0, 1
    {
      CalcValue(a, v, rank, busy, bound);
      CalcValue(b, v, rank, busy, bound);
      assert a !in busy && Settled(Setting(), v, a, cells[a]);
      same := StringValue(a, cells[a].curr, modules) == StringValue(b, cells[b].curr, modules);
    }

    method CalcOpt(e: Option<Expr>,
            ghost v: Values, ghost rank: map<Symbol, nat>, ghost busy: set<Symbol>, ghost bound: nat)
      returns (t: Tristate)
      requires Ready(v, rank, busy, bound) && Earlier(tab, rank, SymbolsOpt(e), bound)
      modifies this`cells
      ensures Ready(v, rank, busy, bound) && Advances(old(cells), cells, busy)
      ensures t == EvalOpt(e, Reading(v, modules))
      decreases bound, 1, 0
    {
      t := Yes;
      if e.Some? {
        t := CalcExpr(e.value, v, rank, busy, bound);
      }
    }

    /** `sym_calc_value` */
    method CalcValue(s: Symbol,
            ghost v: Values, ghost rank: map<Symbol, nat>, ghost busy: set<Symbol>, ghost bound: nat)
      requires Ready(v, rank, busy, bound) && Earlier(tab, rank, {s}, bound)
      modifies this`cells
      ensures Ready(v, rank, busy, bound) && Advances(old(cells), cells, busy)
      ensures cells[s].valid && Settled(Setting(), v, s, cells[s])
      decreases bound, 0, 0, 0
    {
      if cells[s].valid {
        assert s !in busy && Settled(Setting(), v, s, cells[s]);
        return;
      }
      assert v(s) == Step(Setting(), v, s);
      cells := cells[s := cells[s].(valid := true)];
      if s.stype() == Unknown {
        cells := cells[s := cells[s].(curr := SymValue(s.name, No))];
        return;
      }
      assert Falls(tab, rank, s);
      CalcTyped(s, v, rank, busy + {s}, rank[s]);
    }

    /** The part of `sym_calc_value` for a symbol that has a type. */
    method CalcTyped(s: Symbol,
            ghost v: Values, ghost rank: map<Symbol, nat>, ghost busy: set<Symbol>, ghost bound: nat)
      requires Ready(v, rank, busy, bound) && s in tab && s in busy && cells[s].valid
      requires Earlier(tab, rank, Edges(tab[s]), bound)
      requires s.stype() != Unknown && Covered(tab, s)
      modifies this`cells
      ensures Ready(v, rank, busy, bound) && Advances(old(cells), cells, busy - {s})
      ensures cells[s].valid && Settled(Setting(), v, s, cells[s])
      decreases bound, 4
    {
      assert v(s) == Step(Setting(), v, s);
      Prepare(s, v, rank, busy, bound);
      if HasTruth(s) {
        CalcTruth(s, v, rank, busy, bound);
      } else {
        CalcText(s, v, rank, busy, bound);
      }
    }

    /** Its start: no value yet, not to be written, and the visibility. */
    method Prepare(s: Symbol,
            ghost v: Values, ghost rank: map<Symbol, nat>, ghost busy: set<Symbol>, ghost bound: nat)
      requires Ready(v, rank, busy, bound) && s in tab && s in busy && cells[s].valid
      requires Earlier(tab, rank, Edges(tab[s]), bound)
      requires s.stype() != Unknown && Covered(tab, s)
      modifies this`cells
      ensures Ready(v, rank, busy, bound) && Advances(old(cells), cells, busy - {s})
      ensures cells[s] == Cell(true, SymValue(if HasTruth(s) then "n" else "", No), Visibility(Setting(), v, s),
                               DirectDep(Setting(), v, s), ReverseDep(Setting(), v, s), false)
      decreases bound, 3, 2
    {
      Store(s, cells[s].(write := false), v, rank, busy, bound);
      CalcVisibility(s, v, rank, busy, bound);
      Store(s, cells[s].(curr := SymValue(if HasTruth(s) then "n" else "", No)), v, rank, busy, bound);
    }

    /** `sym_calc_visibility` */
    method CalcVisibility(s: Symbol,
            ghost v: Values, ghost rank: map<Symbol, nat>, ghost busy: set<Symbol>, ghost bound: nat)
      requires Ready(v, rank, busy, bound) && s in tab && s in busy && cells[s].valid
      requires Earlier(tab, rank, Edges(tab[s]), bound)
      requires Earlier(tab, rank, SymbolsOpt(tab[s].dirDep), bound)
      modifies this`cells
      ensures Ready(v, rank, busy, bound) && Advances(old(cells), cells, busy - {s})
      ensures cells[s] == old(cells)[s].(visible := Visibility(Setting(), v, s), dir := DirectDep(Setting(), v, s),
                                         rev := ReverseDep(Setting(), v, s))
      decreases bound, 3, 0
    {
      var d := tab[s];
      var tri := PromptsTri(s, v, rank, busy, bound);
      tri := PromoteUnless(tri, EffType(s, modules) == TristateType);
      Store(s, cells[s].(visible := tri), v, rank, busy, bound);
      tri := CalcOpt(d.dirDep, v, rank, busy, bound);
      tri := PromoteUnless(tri, false);
      Store(s, cells[s].(dir := tri), v, rank, busy, bound);
      CalcReverse(s, v, rank, busy, bound);
    }

    /** Its last part: what the selects ask for. */
    method CalcReverse(s: Symbol,
            ghost v: Values, ghost rank: map<Symbol, nat>, ghost busy: set<Symbol>, ghost bound: nat)
      requires Ready(v, rank, busy, bound) && s in tab && s in busy && cells[s].valid
      requires Earlier(tab, rank, Edges(tab[s]), bound)
      modifies this`cells
      ensures Ready(v, rank, busy, bound) && Advances(old(cells), cells, busy - {s})
      ensures cells[s] == old(cells)[s].(rev := ReverseDep(Setting(), v, s))
      decreases bound, 2, 1
    {
      var d, tri := tab[s], No;
      if d.revDep.Some? {
        tri := CalcOpt(d.revDep, v, rank, busy, bound);
      }
      tri := PromoteUnless(tri, EffType(s, modules) != Boolean);
      Store(s, cells[s].(rev := tri), v, rank, busy, bound);
    }

    /** Is one property visible? */
    method PropTri(s: Symbol, i: nat,
            ghost v: Values, ghost rank: map<Symbol, nat>, ghost busy: set<Symbol>, ghost bound: nat)
      returns (tri: Tristate)
      requires Ready(v, rank, busy, bound) && s in tab && Earlier(tab, rank, Edges(tab[s]), bound)
      requires i < |tab[s].props| && !tab[s].props[i].Select?
      modifies this`cells
      ensures Ready(v, rank, busy, bound) && Advances(old(cells), cells, busy)
      ensures tri == EvalOpt(tab[s].props[i].visible, Reading(v, modules))
      decreases bound, 1, 1
    {
      PropEarlier(tab, rank, s, i, bound);
      tri := CalcOpt(tab[s].props[i].visible, v, rank, busy, bound);
    }

    /** Any prompt visible? */
    method PromptsTri(s: Symbol,
            ghost v: Values, ghost rank: map<Symbol, nat>, ghost busy: set<Symbol>, ghost bound: nat)
      returns (tri: Tristate)
      requires Ready(v, rank, busy, bound) && s in tab && s in busy && cells[s].valid
      requires Earlier(tab, rank, Edges(tab[s]), bound)
      modifies this`cells
      ensures Ready(v, rank, busy, bound) && Advances(old(cells), cells, busy - {s})
      ensures cells[s] == old(cells)[s]
      ensures tri == PromptOr(tab[s].props, |tab[s].props|, Reading(v, modules))
      decreases bound, 2, 0
    {
      hide Earlier, Later, Acyclic;
      var props := tab[s].props;
      tri := No;
      var i := 0;
      while i < |props|
        invariant 0 <= i <= |props|
        invariant Ready(v, rank, busy, bound) && Advances(old(cells), cells, busy)
        invariant tri == PromptOr(props, i, Reading(v, modules))
      {
        if props[i].Prompt? {
          var t := PropTri(s, i, v, rank, busy, bound);
          tri := OrT(tri, t);
        }
        i := i + 1;
      }
    }

    /** `sym_get_default_prop` */
    method FindDefault(s: Symbol,
            ghost v: Values, ghost rank: map<Symbol, nat>, ghost busy: set<Symbol>, ghost bound: nat)
      returns (k: nat, vis: Tristate)
      requires Ready(v, rank, busy, bound) && s in tab && s in busy && cells[s].valid
      requires Earlier(tab, rank, Edges(tab[s]), bound)
      modifies this`cells
      ensures Ready(v, rank, busy, bound) && Advances(old(cells), cells, busy - {s})
      ensures cells[s] == old(cells)[s]
      ensures k == DefaultIndex(Setting(), v, s)
      ensures k < |tab[s].props| ==> vis == EvalOpt(tab[s].props[k].visible, Reading(v, modules))
      decreases bound, 2, 0
    {
      hide Earlier, Later, Acyclic;
      var props := tab[s].props;
      k, vis := 0, No;
      while k < |props|
        invariant 0 <= k <= |props|
        invariant Ready(v, rank, busy, bound) && Advances(old(cells), cells, busy)
        invariant DefaultIndex(Setting(), v, s) == FirstDefault(props, k, Reading(v, modules))
      {
        if props[k].Default? {
          vis := PropTri(s, k, v, rank, busy, bound);
          if vis != No {
            return;
          }
        }
        k := k + 1;
      }
    }

    /** The default of a bool or tristate symbol, cut down to where it applies. */
    method DefaultTri(s: Symbol,
            ghost v: Values, ghost rank: map<Symbol, nat>, ghost busy: set<Symbol>, ghost bound: nat)
      returns (found: bool, tri: Tristate)
      requires Ready(v, rank, busy, bound) && s in tab && s in busy && cells[s].valid
      requires Earlier(tab, rank, Edges(tab[s]), bound)
      modifies this`cells
      ensures Ready(v, rank, busy, bound) && Advances(old(cells), cells, busy - {s})
      ensures cells[s] == old(cells)[s]
      ensures found == (DefaultIndex(Setting(), v, s) < |tab[s].props|)
      ensures found ==>
                var p := tab[s].props[DefaultIndex(Setting(), v, s)];
                tri == AndT(Eval(p.value, Reading(v, modules)), EvalOpt(p.visible, Reading(v, modules)))
      ensures !found ==> tri == No
      decreases bound, 2, 1
    {
      var k, vis := FindDefault(s, v, rank, busy, bound);
      found, tri := k < |tab[s].props|, No;
      if found {
        PropEarlier(tab, rank, s, k, bound);
        tri := CalcExpr(tab[s].props[k].value, v, rank, busy, bound);
        tri := AndT(tri, vis);
      }
    }

    /** The bool and tristate branch. */
    method CalcTruth(s: Symbol,
            ghost v: Values, ghost rank: map<Symbol, nat>, ghost busy: set<Symbol>, ghost bound: nat)
      requires Ready(v, rank, busy, bound) && s in tab && s in busy && cells[s].valid
      requires Earlier(tab, rank, Edges(tab[s]), bound)
      requires HasTruth(s) && !cells[s].write
      requires cells[s].visible == Visibility(Setting(), v, s) && cells[s].rev == ReverseDep(Setting(), v, s)
      modifies this`cells
      ensures Ready(v, rank, busy, bound) && Advances(old(cells), cells, busy - {s})
      ensures cells[s] == old(cells)[s].(curr := SymValue("n", TruthValue(Setting(), v, s)),
                                         write := Written(Setting(), v, s))
      decreases bound, 3, 1
    {
      var c := cells[s];
      var tri, write := No, true;
      if c.visible != No && s in user {
        tri := AndT(user[s].tri, c.visible);
      } else {
        var found;
        found, tri := DefaultTri(s, v, rank, busy, bound);
        write := c.visible != No || c.rev != No || found;
      }
      tri := PromoteUnless(OrT(tri, c.rev), EffType(s, modules) != Boolean);
      Store(s, c.(curr := SymValue("n", tri), write := write), v, rank, busy, bound);
    }

    /** The int, hex and string branch. */
    method CalcText(s: Symbol,
            ghost v: Values, ghost rank: map<Symbol, nat>, ghost busy: set<Symbol>, ghost bound: nat)
      requires Ready(v, rank, busy, bound) && s in tab && s in busy && cells[s].valid
      requires Earlier(tab, rank, Edges(tab[s]), bound)
      requires !HasTruth(s) && s.stype() != Unknown && !cells[s].write
      requires cells[s].visible == Visibility(Setting(), v, s) && cells[s].rev == ReverseDep(Setting(), v, s)
      requires cells[s].curr == SymValue("", No)
      modifies this`cells
      ensures Ready(v, rank, busy, bound) && Advances(old(cells), cells, busy - {s})
      ensures cells[s] == old(cells)[s].(curr := SymValue(TextValue(Setting(), v, s), No),
                                         write := Written(Setting(), v, s))
      decreases bound, 3, 1
    {
      var c := cells[s];
      if c.visible != No {
        Store(s, cells[s].(write := true), v, rank, busy, bound);
        if s in user {
          Store(s, cells[s].(curr := SymValue(user[s].val, No)), v, rank, busy, bound);
          return;
        }
      }
      TextDefault(s, v, rank, busy, bound);
    }

    /** The default of an int, hex or string symbol is the text of one other symbol. */
    method TextDefault(s: Symbol,
            ghost v: Values, ghost rank: map<Symbol, nat>, ghost busy: set<Symbol>, ghost bound: nat)
      requires Ready(v, rank, busy, bound) && s in tab && s in busy && cells[s].valid
      requires Earlier(tab, rank, Edges(tab[s]), bound)
      requires s.stype() != Boolean
      modifies this`cells
      ensures Ready(v, rank, busy, bound) && Advances(old(cells), cells, busy - {s})
      ensures var k, props := DefaultIndex(Setting(), v, s), tab[s].props;
              cells[s] == if k < |props| && props[k].value.Sym?
                          then old(cells)[s].(curr := SymValue(v(props[k].value.sym).val, No), write := true)
                          else old(cells)[s]
      decreases bound, 3, 0
    {
      var k, vis := FindDefault(s, v, rank, busy, bound);
      if k < |tab[s].props| && tab[s].props[k].value.Sym? {
        PropEarlier(tab, rank, s, k, bound);
        var ds := tab[s].props[k].value.sym;
        CalcValue(ds, v, rank, busy, bound);
        Store(s, cells[s].(curr := SymValue(cells[ds].curr.val, No), write := true), v, rank, busy, bound);
      }
    }
  }
}
