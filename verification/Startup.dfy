/** From the parsed tree to calculated symbols: `menu_finalize`, the dependency check of `conf_parse`, and
    evaluation, each resting on what the one before it has established. */
module Startup {
  import opened Options
  import opened Exprs
  import opened Compare
  import opened SymbolTable
  import opened SymbolSpec
  import opened SymbolTheorems
  import opened SymbolLaws
  import opened MenuTree
  import opened MenuBooks
  import opened MenuShape
  import opened MenuFinalize
  import DepCheck
  import SymbolCalc

  /* ---------- the symbol table that finalisation leaves behind ---------- */

  /** The property list of a symbol: that of each of its entries, in the order they were written down. */
  function PropsOf(order: seq<Id>, data: map<Id, Entry>, s: Symbol): seq<Property> {
    if order == [] then []
    else (if order[0] in data && data[order[0]].sym == Some(s) then data[order[0]].props else []) +
         PropsOf(order[1..], data, s)
  }

  function TableOf(order: seq<Id>, data: map<Id, Entry>, rev: map<Symbol, Expr>, dir: map<Symbol, Expr>,
                   symbols: set<Symbol>): Table {
    map s | s in symbols :: Definition(PropsOf(order, data, s), RevDepOf(dir, s), RevDepOf(rev, s))
  }

  /** That is, entry after entry, all properties of the entries of the symbol and of no other. */
  lemma {:induction false} PropsOfConcat(a: seq<Id>, b: seq<Id>, data: map<Id, Entry>, s: Symbol)
    ensures PropsOf(a + b, data, s) == PropsOf(a, data, s) + PropsOf(b, data, s)
    ensures forall i :: i in data ==> PropsOf([i], data, s) == if data[i].sym == Some(s) then data[i].props else []
    decreases a
  {
    forall i | i in data ensures PropsOf([i], data, s) == if data[i].sym == Some(s) then data[i].props else [] {
      assert PropsOf([i][1..], data, s) == [];
    }
    if a == [] {
      assert a + b == b;
    } else {
      assert (a + b)[1..] == a[1..] + b;
      PropsOfConcat(a[1..], b, data, s);
    }
  }

  lemma {:induction false} PropsEdgesConcat(a: seq<Property>, b: seq<Property>)
    ensures PropsEdges(a + b) == PropsEdges(a) + PropsEdges(b)
  {
    if a == [] {
      assert a + b == b;
    } else {
      assert (a + b)[1..] == a[1..] + b;
      PropsEdgesConcat(a[1..], b);
    }
  }

  lemma {:induction false} PropsOfHas(order: seq<Id>, data: map<Id, Entry>, s: Symbol, i: Id, j: nat)
    requires i in order && i in data && data[i].sym == Some(s) && j < |data[i].props|
    ensures PropEdges(data[i].props[j]) <= PropsEdges(PropsOf(order, data, s))
  {
    var first := if order[0] in data && data[order[0]].sym == Some(s) then data[order[0]].props else [];
    PropsEdgesConcat(first, PropsOf(order[1..], data, s));
    if i == order[0] { PropsEdgesAppend(first, j); } else { PropsOfHas(order[1..], data, s, i, j); }
  }

  lemma {:induction false} PropsEdgesScoped(props: seq<Property>, table: set<Symbol>)
    requires PropsScoped(props, table)
    ensures PropsEdges(props) <= table
  {
    if props != [] {
      assert PropScoped(props[0], table);
      PropsEdgesScoped(props[1..], table);
    }
  }

  lemma {:induction false} PropsOfScoped(order: seq<Id>, data: map<Id, Entry>, s: Symbol, table: set<Symbol>)
    requires forall i :: i in data ==> EntryScoped(data[i], table)
    ensures PropsEdges(PropsOf(order, data, s)) <= table
    ensures IsTriConstant(s) ==> PropsOf(order, data, s) == []
  {
    if order != [] {
      var first := if order[0] in data && data[order[0]].sym == Some(s) then data[order[0]].props else [];
      PropsOfScoped(order[1..], data, s, table);
      PropsEdgesScoped(first, table);
      PropsEdgesConcat(first, PropsOf(order[1..], data, s));
    }
  }

  /** A symbol of the accumulated expression comes from one of the terms. */
  lemma {:induction false} AccumulateSymbols(terms: seq<Term>, s: Symbol, t: Symbol) returns (x: Term)
    requires s in Accumulate(terms) && t in Symbols(Accumulate(terms)[s])
    ensures x in terms && x.target == s && t in Symbols(x.cond)
  {
    x := terms[|terms| - 1];
    if !(x.target == s && t in Symbols(x.cond)) {
      x := AccumulateSymbols(terms[..|terms| - 1], s, t);
    }
  }

  lemma {:induction false} AccumulateTargets(terms: seq<Term>, s: Symbol)
    requires s in Accumulate(terms)
    ensures exists x :: x in terms && x.target == s
  {
    var x := terms[|terms| - 1];
    if x.target == s {
      assert x in terms;
    } else {
      AccumulateTargets(terms[..|terms| - 1], s);
    }
  }

  lemma AccumulateScoped(terms: seq<Term>, s: Symbol, table: set<Symbol>)
    requires TermsScoped(terms, table)
    ensures SymbolsOpt(RevDepOf(Accumulate(terms), s)) <= table
    ensures IsTriConstant(s) ==> s !in Accumulate(terms)
  {
    if s in Accumulate(terms) {
      AccumulateTargets(terms, s);
      forall t | t in Symbols(Accumulate(terms)[s]) ensures t in table {
        var x := AccumulateSymbols(terms, s, t);
      }
    }
  }

  /** Every entry of a symbol was given a property that shares the dependency of the entry and nothing more. */
  ghost predicate Markers(entries: map<Id, Entry>) {
    forall i :: i in entries && entries[i].sym.Some? ==> HasMarker(entries[i].props)
  }

  ghost predicate HasMarker(props: seq<Property>) {
    exists j :: 0 <= j < |props| && props[j] == Marker(None)
  }

  /** What that property is for here: it repeats the symbols of the dependency where the check sees them. */
  lemma MarkerRepeats(v: View, root: Id, terms: seq<Term>, i: Id) returns (j: nat)
    requires Sound(v, root, terms) && Markers(v.orig) && i in v.done && i != root && v.data[i].sym.Some?
    ensures j < |v.data[i].props| && v.data[i].props[j].Marker? && Keeps(v.data[i].dep, v.data[i].props[j].visible)
  {
    assert Inherited(v, root, i);
    var a, b := v.orig[i], v.data[i];
    assert HasMarker(a.props);
    j :| 0 <= j < |a.props| && a.props[j] == Marker(None);
    assert PropInherits(b.dep, a.props[j], b.props[j], PromotesM(a));
  }

  /** The books of a finished tree whose entries below the root are those in `order`. */
  ghost predicate Finished(v: View, l: Ledger, order: seq<Id>) {
    && Books(v, l) && l.owed == [] && l.log == v.order == [l.root] + order && Markers(v.orig)
    && (forall i :: i in v.done <==> i in v.order)
  }

  /** The table made of them. */
  ghost function TableFrom(v: View, l: Ledger, order: seq<Id>): Table {
    TableOf(order, v.data, l.rev, l.dir, l.table)
  }

  /** Evaluation reads nothing that the check does not follow. */
  lemma TableCovered(v: View, l: Ledger, order: seq<Id>, s: Symbol)
    requires Finished(v, l, order) && s in l.table
    ensures Covered(TableFrom(v, l, order), s)
  {
    var tab := TableFrom(v, l, order);
    forall t | t in SymbolsOpt(tab[s].dirDep) ensures t in Edges(tab[s]) || (IsTriConstant(t) && t in tab) {
      var x := AccumulateSymbols(l.dirs, s, t);
      var i :| DirectOf(v, l.root, i, x);
      var j := MarkerRepeats(v, l.root, l.terms, i);
      PropsOfHas(order, v.data, s, i, j);
      assert t in WithConstants(SymbolsOpt(v.data[i].props[j].visible));
    }
  }

  lemma TableClosed(v: View, l: Ledger, order: seq<Id>, s: Symbol)
    requires Finished(v, l, order) && s in l.table
    ensures var d := TableFrom(v, l, order)[s];
            Edges(d) <= l.table && (IsTriConstant(s) ==> Edges(d) == {})
  {
    PropsOfScoped(order, v.data, s, l.table);
    AccumulateScoped(l.terms, s, l.table);
  }

  /* ---------- all of it ---------- */

  /** The tree, its entries and the symbol table as the parser leaves them. */
  ghost predicate Parsed(heap: Heap, entries: map<Id, Entry>, root: Id, symbols: set<Symbol>, f: Forest) {
    && root in heap && heap[root].parent.None? && heap[root].next.None? && Linked(heap, heap[root].list, Some(root), f)
    && Distinct([root] + Pre(f)) && heap.Keys == entries.Keys && (forall i :: i in entries ==> Proper(entries[i]))
    && SimpleOpt(entries[root].dep) && SimpleProps(entries[root].props) && entries[root].sym.None?
    && Scoped(symbols, entries, [], []) && Markers(entries)
  }

  /** What has come of it: the links, the entries with their dependencies, and the table made of them. */
  datatype FinishedTree = FinishedTree(order: seq<Id>, links: Heap, data: map<Id, Entry>, tab: Table)

  /** How that follows from what was parsed. Every entry has inherited from the one it was written under (`Books`),
      hangs at the first entry with a prompt above it or above the sibling that took it in (`Placed`), and has
      left its traces in the dependencies of symbols, which hold nothing else (`Noted`, `Books`). */
  ghost predicate Built(heap: Heap, entries: map<Id, Entry>, root: Id, symbols: set<Symbol>, f: Forest,
                        t: FinishedTree, v: View, l: Ledger) {
    && Finished(v, l, t.order) && v.orig == entries && v.data == t.data && UpsFrom(heap, v)
    && l.root == root && l.table == symbols && t.order == Pre(f) && t.tab == TableFrom(v, l, t.order)
    && Placed(v, root, t.links, t.order) && !Hosted(v, root)
    && (forall i :: i in t.order ==> Noted(v, l.terms, l.dirs, i))
  }

  /** The select asks for no more than its target has. */
  predicate Honoured(e: Entry, p: Property, v: Values, modules: Tristate) {
    p.Select? && e.sym.Some? && HasTruth(p.target) ==>
      v(p.target).tri >= AndT(v(e.sym.value).tri, EvalOpt(p.visible, Reading(v, modules)))
  }

  ghost predicate AllHonoured(data: map<Id, Entry>, order: seq<Id>, v: Values, modules: Tristate) {
    forall i, j :: i in order && i in data && 0 <= j < |data[i].props| ==>
      Honoured(data[i], data[i].props[j], v, modules)
  }

  lemma FinishedHonours(v: View, l: Ledger, order: seq<Id>, u: Setup, vals: Values)
    requires Finished(v, l, order) && Solves(u, vals) && u.tab == TableFrom(v, l, order)
    ensures AllHonoured(v.data, order, vals, u.modules)
  {
    forall i, j | i in order && i in v.data && 0 <= j < |v.data[i].props|
      ensures Honoured(v.data[i], v.data[i].props[j], vals, u.modules)
    {
      var p := v.data[i].props[j];
      if p.Select? && v.data[i].sym.Some? && HasTruth(p.target) {
        assert EntryScoped(v.data[i], l.table) && PropScoped(p, l.table);
        DistinctParts([l.root], order);
        SelectsHonoured(v, l.root, l.terms, i, j, u, vals);
      }
    }
  }

  /* ---------- no more than is asked ---------- */

  /** A select of the entry names `s`, and the lesser of the selecting symbol and the condition is `x`. */
  predicate SelectAsks(e: Entry, j: nat, u: Setup, v: Values, s: Symbol, x: Tristate) {
    && j < |e.props| && e.props[j].Select? && e.props[j].target == s && e.sym.Some?
    && x == AndT(v(e.sym.value).tri, Condition(u, v, e.props[j]))
  }

  /** The entry is that of `s`, which cannot be left unset, and as far as its prompt shows up to `m`, that is `x`. */
  predicate PromptAsks(e: Entry, u: Setup, v: Values, s: Symbol, x: Tristate) {
    && e.sym == Some(s) && !e.optional && e.prompt.Some? && e.prompt.value < |e.props|
    && x == AndT(Condition(u, v, e.props[e.prompt.value]), Mod)
  }

  ghost predicate EntryAsks(e: Entry, u: Setup, v: Values, s: Symbol, x: Tristate) {
    PromptAsks(e, u, v, s, x) || exists j: nat :: SelectAsks(e, j, u, v, s, x)
  }

  ghost predicate Asked(data: map<Id, Entry>, order: seq<Id>, u: Setup, v: Values, s: Symbol, x: Tristate) {
    exists i :: i in order && i in data && EntryAsks(data[i], u, v, s, x)
  }

  /** `x` is the strongest of all that is asked of `s` in the tree, `n` if nothing is. */
  ghost predicate MostAsked(data: map<Id, Entry>, order: seq<Id>, u: Setup, v: Values, s: Symbol, x: Tristate) {
    && (forall y: Tristate :: Asked(data, order, u, v, s, y) ==> y <= x)
    && (x == No || Asked(data, order, u, v, s, x))
  }

  predicate Unprompted(props: seq<Property>) {
    forall j :: 0 <= j < |props| ==> !props[j].Prompt? && !props[j].Default?
  }

  /** What selects and prompts ask of `s` is all that raises it: it is what they raise it to if it has neither a prompt
      nor a default of its own, and otherwise the greater of that and what those give it. */
  ghost predicate AsAsked(data: map<Id, Entry>, order: seq<Id>, u: Setup, v: Values, s: Symbol)
    requires s in u.tab
  {
    exists x: Tristate ::
      && MostAsked(data, order, u, v, s, x) && ReverseDep(u, v, s) == Lifted(u, s, x)
      && (Unprompted(u.tab[s].props) ==> v(s).tri == Lifted(u, s, x))
  }

  lemma SelectTermValue(selector: Symbol, p: Property, u: Setup, v: Values)
    requires p.Select?
    ensures SelectTerm(selector, p).target == p.target
    ensures Eval(SelectTerm(selector, p).cond, Reading(v, u.modules)) == AndT(v(selector).tri, Condition(u, v, p))
  {
    assert Eval(Sym(selector), Reading(v, u.modules)) == v(selector).tri;
  }

  lemma ChoosingTermValue(e: Entry, u: Setup, v: Values)
    requires Proper(e) && Chooses(e) && Solves(u, v)
    ensures ChoosingTerm(e).target == e.sym.value
    ensures Eval(ChoosingTerm(e).cond, Reading(v, u.modules)) == AndT(Condition(u, v, e.props[e.prompt.value]), Mod)
  {
    UndefinedLaw(u, v, ModSym);
    assert Eval(Sym(ModSym), Reading(v, u.modules)) == Mod;
  }

  /** A term comes from an entry below the root. */
  lemma TermFrom(v: View, l: Ledger, order: seq<Id>, t: Term) returns (i: Id)
    requires Finished(v, l, order) && t in l.terms
    ensures i in order && ReverseOf(v, i, t)
  {
    i :| ReverseOf(v, i, t);
    assert i != l.root;
  }

  /** Every term of a reverse dependency is something asked. */
  lemma TermAsked(v: View, l: Ledger, order: seq<Id>, u: Setup, vals: Values, t: Term)
    requires Finished(v, l, order) && Solves(u, vals) && t in l.terms
    ensures Asked(v.data, order, u, vals, t.target, Eval(t.cond, Reading(vals, u.modules)))
  {
    hide Finished, Eval, Reading, SelectTerm, ChoosingTerm, Condition;
    var x := Eval(t.cond, Reading(vals, u.modules));
    var i := TermFrom(v, l, order, t);
    var e := v.data[i];
    if FromSelect(e.sym, e.props, t) {
      var j :| 0 <= j < |e.props| && e.props[j].Select? && t == SelectTerm(e.sym.value, e.props[j]);
      SelectTermValue(e.sym.value, e.props[j], u, vals);
      assert SelectAsks(e, j, u, vals, t.target, x);
    } else {
      ChoosingTermValue(e, u, vals);
    }
    assert EntryAsks(e, u, vals, t.target, x);
  }

  /** An entry below the root has left its terms. */
  lemma EntryTerms(v: View, l: Ledger, order: seq<Id>, i: Id)
    requires Finished(v, l, order) && i in order
    ensures i in v.data && Proper(v.data[i]) && SelectsIn(v.data[i].sym, v.data[i].props, l.terms)
    ensures Chooses(v.data[i]) ==> ChoosingTerm(v.data[i]) in l.terms
  {
    DistinctParts([l.root], order);
    assert i in l.log && i != l.root;
    assert Noted(v, l.terms, l.dirs, i) && Recorded(v, l.root, l.terms, i);
  }

  /** And everything asked is such a term. */
  lemma AskedTerm(v: View, l: Ledger, order: seq<Id>, u: Setup, vals: Values, s: Symbol, x: Tristate) returns (t: Term)
    requires Finished(v, l, order) && Solves(u, vals) && Asked(v.data, order, u, vals, s, x)
    ensures t in l.terms && t.target == s && Eval(t.cond, Reading(vals, u.modules)) == x
  {
    hide Finished, Eval, Reading, SelectTerm, ChoosingTerm, Condition;
    var i :| i in order && i in v.data && EntryAsks(v.data[i], u, vals, s, x);
    var e := v.data[i];
    EntryTerms(v, l, order, i);
    if !PromptAsks(e, u, vals, s, x) {
      var j: nat :| SelectAsks(e, j, u, vals, s, x);
      t := SelectTerm(e.sym.value, e.props[j]);
      SelectTermValue(e.sym.value, e.props[j], u, vals);
    } else {
      t := ChoosingTerm(e);
      ChoosingTermValue(e, u, vals);
    }
  }

  lemma FinishedAsks(v: View, l: Ledger, order: seq<Id>, u: Setup, vals: Values, s: Symbol)
    requires Finished(v, l, order) && Solves(u, vals) && u.tab == TableFrom(v, l, order) && s in u.tab && HasTruth(s)
    ensures AsAsked(v.data, order, u, vals, s)
  {
    hide Eval, Reading, Asked, Books, Accumulate, StrongestPrompt;
    var val := Reading(vals, u.modules);
    var x := RevValue(u.tab[s].revDep, val);
    assert u.tab[s].revDep == RevDepOf(Accumulate(l.terms), s) by { RevIs(v, l, order); }
    AccumulateValue(l.terms, s, val);
    forall y: Tristate | Asked(v.data, order, u, vals, s, y) ensures y <= x {
      var t := AskedTerm(v, l, order, u, vals, s, y);
    }
    if x != No {
      var n :| 0 <= n < |l.terms| && l.terms[n].target == s && x == Eval(l.terms[n].cond, val);
      TermAsked(v, l, order, u, vals, l.terms[n]);
    }
    assert MostAsked(v.data, order, u, vals, s, x);
    DependencyLaw(u, vals, s);
    if Unprompted(u.tab[s].props) { UnpromptedValue(u, vals, s); }
  }

  lemma RevIs(v: View, l: Ledger, order: seq<Id>)
    requires Finished(v, l, order)
    ensures l.rev == Accumulate(l.terms)
  {
  }

  lemma UnpromptedValue(u: Setup, v: Values, s: Symbol)
    requires Solves(u, v) && s in u.tab && HasTruth(s) && Unprompted(u.tab[s].props)
    ensures v(s).tri == ReverseDep(u, v, s)
  {
    var r := VisibilityLaw(u, v, s);
    NoDefaultLaw(u, v, s);
  }

  /** `menu_finalize(&rootmenu)` */
  method FinalizeTree(heap: Heap, entries: map<Id, Entry>, root: Id, symbols: set<Symbol>, ghost f: Forest)
    returns (t: FinishedTree, ghost v: View, ghost l: Ledger)
    requires Parsed(heap, entries, root, symbols, f)
    ensures Built(heap, entries, root, symbols, f, t, v, l)
  {
    hide Books, Placed, Hosted, Noted, Flat, Linked, Markers, Scoped, Ready, Fresh, Located, TableOf, Pre;
    var m := new Menus(heap, entries, root, symbols, f);
    var visited;
    ghost var g;
    visited, g := m.FinalizeAll(f);
    t := FinishedTree(visited, m.links, m.data, TableOf(visited, m.data, m.rev, m.dir, symbols));
    v, l := m.V(), m.L();
  }

  /** The loop of `conf_parse` over the table that results. */
  method CheckTable(t: FinishedTree, symbols: set<Symbol>, list: seq<Symbol>, ghost v: View, ghost l: Ledger)
    returns (reported: bool, errors: nat, ghost rank: map<Symbol, nat>)
    requires Finished(v, l, t.order) && l.table == symbols && t.tab == TableFrom(v, l, t.order)
    requires forall n :: 0 <= n < |list| ==> list[n] in symbols
    requires forall s :: s in symbols ==> s in list || IsTriConstant(s)
    ensures reported <==> DepCheck.HasCycle(GraphOf(t.tab))
    ensures !reported ==> Acyclic(t.tab, rank)
    ensures errors == 0
  {
    hide Finished;
    var c := new DepCheck.Checker(t.tab);
    forall s | s in t.tab ensures c.g[s] <= c.g.Keys && (IsTriConstant(s) ==> c.g[s] == {}) && Covered(t.tab, s) {
      TableClosed(v, l, t.order, s);
      TableCovered(v, l, t.order, s);
    }
    errors, rank := c.CheckAll(list);
    reported := c.st.cycles > 0;
    if !reported {
      SymbolCalc.CheckedIsAcyclic(t.tab, rank);
    }
  }

  /** `v` is the only solution, and `values` holds it for the symbols in `order`. */
  ghost predicate Calculated(u: Setup, v: Values, order: seq<Symbol>, values: map<Symbol, SymValue>) {
    && Solves(u, v) && (forall w: Values, s: Symbol :: Solves(u, w) ==> w(s) == v(s))
    && (forall n :: 0 <= n < |order| ==> order[n] in values && values[order[n]] == v(order[n]))
  }

  /** Parse tree in, values out. The tree is built from what was parsed; a recursive dependency is reported if
      and only if there is one; otherwise any symbols, calculated in any order, get the one value their
      definitions allow, under which every select in the tree is honoured. */
  method Load(heap: Heap, entries: map<Id, Entry>, root: Id, symbols: set<Symbol>, list: seq<Symbol>,
              user: map<Symbol, SymValue>, modules: Tristate, order: seq<Symbol>, ghost f: Forest)
    returns (t: FinishedTree, reported: bool, errors: nat, values: map<Symbol, SymValue>,
             ghost rank: map<Symbol, nat>, ghost v: View, ghost l: Ledger)
    requires Parsed(heap, entries, root, symbols, f)
    requires forall n :: 0 <= n < |list| ==> list[n] in symbols
    requires forall s :: s in symbols ==> s in list || IsTriConstant(s)
    requires forall n :: 0 <= n < |order| ==> order[n] in symbols
    ensures Built(heap, entries, root, symbols, f, t, v, l)
    ensures reported <==> DepCheck.HasCycle(GraphOf(t.tab))
    ensures errors == 0
    ensures !reported ==>
              var u := Setup(t.tab, user, modules);
              && Acyclic(t.tab, rank) && Calculated(u, PureValues(u, rank), order, values)
              && AllHonoured(t.data, t.order, PureValues(u, rank), modules)
              && (forall s :: s in t.tab && HasTruth(s) ==> AsAsked(t.data, t.order, u, PureValues(u, rank), s))
  {
    hide Books, Placed, Hosted, Noted, AllHonoured, AsAsked;
    t, v, l := FinalizeTree(heap, entries, root, symbols, f);
    reported, errors, rank := CheckTable(t, symbols, list, v, l);
    values := map[];
    if !reported {
      values := Evaluate(t.tab, user, modules, order, rank);
      ghost var u := Setup(t.tab, user, modules);
      FinishedHonours(v, l, t.order, u, PureValues(u, rank));
      forall s | s in t.tab && HasTruth(s) ensures AsAsked(t.data, t.order, u, PureValues(u, rank), s) {
        FinishedAsks(v, l, t.order, u, PureValues(u, rank), s);
      }
    }
  }

  method Evaluate(tab: Table, user: map<Symbol, SymValue>, modules: Tristate, order: seq<Symbol>,
                  ghost rank: map<Symbol, nat>)
    returns (values: map<Symbol, SymValue>)
    requires Acyclic(tab, rank) && forall n :: 0 <= n < |order| ==> order[n] in tab
    ensures var u := Setup(tab, user, modules);
            Calculated(u, PureValues(u, rank), order, values)
  {
    var e := new SymbolCalc.Engine(tab, user, modules, rank);
    e.CalcAll(order, rank);
    values := map s | s in e.cells :: e.cells[s].curr;
    ghost var u := Setup(tab, user, modules);
    PureSolves(u, rank);
    forall w: Values, s: Symbol | Solves(u, w) ensures w(s) == PureValues(u, rank)(s) {
      SolutionUnique(u, rank, w, PureValues(u, rank), s);
    }
  }
}
