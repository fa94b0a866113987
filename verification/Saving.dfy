/** A configuration that is calculated, written, read back and calculated again. */
module Saving {
  import opened Options
  import opened Exprs
  import opened SymbolTable
  import opened SymbolSpec
  import opened SymbolTheorems
  import opened MenuTree
  import opened MenuBooks
  import opened Startup
  import opened ConfigText
  import ConfigFile
  import SymbolCalc

  /* ---------- recalculating from the values themselves ---------- */

  /** A visible bool or tristate symbol has a value that its visibility or the selects carry. */
  predicate Steady(u: Setup, v: Values, s: Symbol)
    requires s in u.tab
  {
    HasTruth(s) && Visibility(u, v, s) != No ==> v(s).tri <= Visibility(u, v, s) || v(s).tri == ReverseDep(u, v, s)
  }

  /** Of every visible symbol the value has been read back. */
  ghost predicate ReadBack(u: Setup, v: Values, read: map<Symbol, SymValue>) {
    forall s :: s in u.tab && s.stype() != Unknown && Visibility(u, v, s) != No ==>
      s in read && if HasTruth(s) then read[s].tri == v(s).tri else read[s].val == v(s).val
  }

  /** With the values read back as user values, a symbol keeps its value exactly if it was steady. */
  lemma StepReloaded(u: Setup, v: Values, read: map<Symbol, SymValue>, s: Symbol)
    requires Solves(u, v) && ReadBack(u, v, read)
    ensures Step(u.(user := read), v, s) == v(s) <==> (s in u.tab ==> Steady(u, v, s))
  {
    var x := u.(user := read);
    assert v(s) == Step(u, v, s);
    if s in u.tab && HasTruth(s) {
      assert Visibility(x, v, s) == Visibility(u, v, s) && ReverseDep(x, v, s) == ReverseDep(u, v, s);
      if EffType(s, u.modules) == Boolean { NeverM(u, v, s); }
    }
  }

  /** Everything keeps its value if and only if everything was steady. */
  lemma ReloadExact(u: Setup, rank: map<Symbol, nat>, v: Values, w: Values, read: map<Symbol, SymValue>)
    requires Acyclic(u.tab, rank) && Solves(u, v) && Solves(u.(user := read), w) && ReadBack(u, v, read)
    ensures (forall s: Symbol :: w(s) == v(s)) <==> (forall s :: s in u.tab ==> Steady(u, v, s))
  {
    var x := u.(user := read);
    if forall s :: s in u.tab ==> Steady(u, v, s) {
      forall s: Symbol ensures v(s) == Step(x, v, s) { StepReloaded(u, v, read, s); }
      forall s: Symbol ensures w(s) == v(s) { SolutionUnique(x, rank, w, v, s); }
    }
    if forall s: Symbol :: w(s) == v(s) {
      forall s | s in u.tab ensures Steady(u, v, s) {
        StepDepends(x, w, v, s);
        assert w(s) == Step(x, w, s);
        StepReloaded(u, v, read, s);
      }
    }
  }

  /** Not everything is: a tristate prompted for at `m` with the default `y`. */
  lemma Unsteady(s: Symbol, rank: map<Symbol, nat>)
    requires s.stype() == TristateType && rank == map[YesSym := 0, ModSym := 0, NoSym := 0, s := 1]
    ensures var u := PromptedAtM(s);
            Acyclic(u.tab, rank) && !Steady(u, PureValues(u, rank), s)
  {
    ConfirmingCanChange(s, rank);
  }

  /* ---------- through the file ---------- */

  /** A symbol that can be written: it has a name and a type. */
  predicate Listed(s: Symbol) {
    s.Config? && s.stype() != Unknown
  }

  /** `sym_lookup` keeps one symbol for a name. */
  ghost predicate OneName(tab: Table) {
    forall s, t :: s in tab && t in tab && Listed(s) && Listed(t) && s.name == t.name ==> s == t
  }

  function TypesOf(tab: Table): Types
    requires OneName(tab)
  {
    map s | s in tab && Listed(s) :: s.name := s.stype()
  }

  function ToUser(s: Symbol, x: SymValue): UserValue {
    if HasTruth(s) then Tri(x.tri) else Text(x.val)
  }

  function FromUser(v: UserValue): SymValue {
    match v
    case Tri(t) => SymValue("", t)
    case Text(s) => SymValue(s, No)
  }

  /** The symbols met on the walk over the tree. */
  function Met(order: seq<Id>, data: map<Id, Entry>): seq<Symbol> {
    if order == [] then []
    else
      var e := order[0];
      (if e in data && data[e].sym.Some? && Listed(data[e].sym.value) then [data[e].sym.value] else []) +
      Met(order[1..], data)
  }

  lemma {:induction false} MetAll(order: seq<Id>, data: map<Id, Entry>, s: Symbol)
    requires Listed(s) && PropsOf(order, data, s) != []
    ensures s in Met(order, data)
    decreases order
  {
    if !(order[0] in data && data[order[0]].sym == Some(s)) { MetAll(order[1..], data, s); }
  }

  /** They are those of the entries in the tree. */
  lemma {:induction false} MetIs(order: seq<Id>, data: map<Id, Entry>, s: Symbol)
    ensures s in Met(order, data) <==> Listed(s) && exists i :: i in order && i in data && data[i].sym == Some(s)
    decreases order
  {
    if order != [] {
      MetIs(order[1..], data, s);
      assert forall i :: i in order <==> i == order[0] || i in order[1..];
    }
  }

  lemma {:induction false} MetListed(order: seq<Id>, data: map<Id, Entry>, symbols: set<Symbol>)
    requires forall i :: i in data && data[i].sym.Some? ==> data[i].sym.value in symbols
    ensures forall n :: 0 <= n < |Met(order, data)| ==> Listed(Met(order, data)[n]) && Met(order, data)[n] in symbols
    decreases order
  {
    if order != [] { MetListed(order[1..], data, symbols); }
  }

  /** What is visible has a prompt, so it is met. */
  lemma VisibleMet(u: Setup, v: Values, order: seq<Id>, data: map<Id, Entry>, s: Symbol)
    requires s in u.tab && Listed(s) && u.tab[s].props == PropsOf(order, data, s) && Visibility(u, v, s) != No
    ensures s in Met(order, data)
  {
    assert PromptOr([], 0, Reading(v, u.modules)) == No;
    MetAll(order, data, s);
  }

  function Names(met: seq<Symbol>): (r: seq<string>)
    requires forall n :: 0 <= n < |met| ==> met[n].Config?
    ensures |r| == |met| && forall n :: 0 <= n < |met| ==> r[n] == met[n].name
  {
    seq(|met|, n requires 0 <= n < |met| => met[n].name)
  }

  /** Names are such that the file can be read, and so is every text that will be written. */
  ghost predicate Writable(u: Setup, v: Values) {
    && OneName(u.tab) && (forall s :: s in u.tab && Listed(s) ==> IsName(s.name))
    && (forall s :: s in u.tab && Listed(s) && !HasTruth(s) && SymbolCalc.Written(u, v, s) ==>
          Fits(s.stype(), Text(v(s).val)) && ConfigFile.NoNul(Text(v(s).val)))
  }

  lemma WrittenFits(u: Setup, v: Values, s: Symbol)
    requires Solves(u, v) && Writable(u, v) && s in u.tab && Listed(s) && SymbolCalc.Written(u, v, s)
    ensures Fits(s.stype(), ToUser(s, v(s))) && ConfigFile.NoNul(ToUser(s, v(s)))
  {
    if s.stype() == Boolean { NeverM(u, v, s); }
  }

  /** Exactly the symbols that are met and written have been read, each with its value. */
  ghost predicate Captured(u: Setup, v: Values, met: seq<Symbol>, read: map<Symbol, SymValue>) {
    && (forall s :: s in read <==> s in met && s in u.tab && SymbolCalc.Written(u, v, s))
    && (forall s :: s in read ==> read[s] == FromUser(ToUser(s, v(s))))
  }

  /** `conf_write` and `conf_read` around the calculation of all symbols met on the walk. What is read back is
      exactly the value of every written symbol that is met, among them every visible one. Recalculated from that, all
      symbols have their values again if and only if every visible bool or tristate symbol was steady. */
  method SaveAndReload(tab: Table, order: seq<Id>, data: map<Id, Entry>, user: map<Symbol, SymValue>, modules: Tristate,
                       ghost rank: map<Symbol, nat>)
    returns (read: map<Symbol, SymValue>, values: map<Symbol, SymValue>)
    requires Acyclic(tab, rank) && (forall i :: i in data && data[i].sym.Some? ==> data[i].sym.value in tab)
    requires forall s :: s in tab ==> tab[s].props == PropsOf(order, data, s)
    requires Writable(Setup(tab, user, modules), PureValues(Setup(tab, user, modules), rank))
    ensures var u, x := Setup(tab, user, modules), Setup(tab, read, modules);
            var v, w := PureValues(u, rank), PureValues(x, rank);
            && Captured(u, v, Met(order, data), read)
            && (forall s :: s in Met(order, data) ==> s in values && values[s] == w(s))
            && ((forall s: Symbol :: w(s) == v(s)) <==> (forall s :: s in tab ==> Steady(u, v, s)))
  {
    ghost var u := Setup(tab, user, modules);
    ghost var v := PureValues(u, rank);
    PureSolves(u, rank);
    MetListed(order, data, tab.Keys);
    var met := Met(order, data);
    var cells := CalcCells(tab, user, modules, met, rank);
    read := WriteAndRead(tab, met, cells, u, v);
    ghost var x := Setup(tab, read, modules);
    PureSolves(x, rank);
    assert u.(user := read) == x;
    forall s | s in tab && s.stype() != Unknown && Visibility(u, v, s) != No
      ensures s in read && if HasTruth(s) then read[s].tri == v(s).tri else read[s].val == v(s).val
    {
      VisibleMet(u, v, order, data, s);
    }
    ReloadExact(u, rank, v, PureValues(x, rank), read);
    var again := CalcCells(tab, read, modules, met, rank);
    values := map s | s in again :: again[s].curr;
  }

  /** What `Startup.Load` returns is what this needs. */
  lemma BuiltSaves(heap: Heap, entries: map<Id, Entry>, root: Id, symbols: set<Symbol>, f: Forest,
                   t: FinishedTree, v: View, l: Ledger)
    requires Built(heap, entries, root, symbols, f, t, v, l)
    ensures forall i :: i in t.data && t.data[i].sym.Some? ==> t.data[i].sym.value in t.tab
    ensures forall s :: s in t.tab ==> t.tab[s].props == PropsOf(t.order, t.data, s)
  {
    forall i | i in t.data && t.data[i].sym.Some? ensures t.data[i].sym.value in t.tab {
      assert EntryScoped(v.data[i], l.table);
    }
  }

  /** The cells of the symbols met are finished. */
  ghost predicate Ready(u: Setup, v: Values, met: seq<Symbol>, cells: SymbolCalc.Cells) {
    forall s :: s in met ==> s in u.tab && Listed(s) && s in cells && SymbolCalc.Settled(u, v, s, cells[s])
  }

  method CalcCells(tab: Table, user: map<Symbol, SymValue>, modules: Tristate, met: seq<Symbol>,
                   ghost rank: map<Symbol, nat>)
    returns (cells: SymbolCalc.Cells)
    requires Acyclic(tab, rank) && forall n :: 0 <= n < |met| ==> met[n] in tab && Listed(met[n])
    ensures Ready(Setup(tab, user, modules), PureValues(Setup(tab, user, modules), rank), met, cells)
  {
    var e := new SymbolCalc.Engine(tab, user, modules, rank);
    e.CalcAll(met, rank);
    cells := e.cells;
  }

  /** What `WriteThenRead` is given: names for symbols. */
  ghost predicate Named(tab: Table, written: set<Symbol>, cells: SymbolCalc.Cells, flagged: set<string>,
                        value: map<string, UserValue>) {
    && (forall s :: s in written ==> s in tab && Listed(s) && s in cells && s.name in flagged)
    && (forall name :: name in flagged ==> exists s :: s in written && s.name == name)
    && (forall s :: s in written ==> s.name in value && value[s.name] == ToUser(s, cells[s].curr))
  }

  lemma NameBack(tab: Table, written: set<Symbol>, cells: SymbolCalc.Cells, flagged: set<string>,
                 value: map<string, UserValue>, s: Symbol)
    requires OneName(tab) && Named(tab, written, cells, flagged, value) && s in tab && Listed(s)
    ensures s in written <==> s.name in flagged
  {
    if s.name in flagged {
      var t :| t in written && t.name == s.name;
    }
  }

  /** The file in between. */
  method WriteAndRead(tab: Table, met: seq<Symbol>, cells: SymbolCalc.Cells, ghost u: Setup, ghost v: Values)
    returns (read: map<Symbol, SymValue>)
    requires u.tab == tab && Solves(u, v) && Writable(u, v) && Ready(u, v, met, cells)
    ensures Captured(u, v, met, read)
  {
    var written := set s | s in met && cells[s].write;
    var flagged := set s | s in written :: s.name;
    var value := map s | s in tab && Listed(s) && s in written :: s.name := ToUser(s, cells[s].curr);
    assert Named(tab, written, cells, flagged, value);
    read := ThroughFile(tab, met, written, cells, flagged, value, u, v);
  }

  method ThroughFile(tab: Table, met: seq<Symbol>, written: set<Symbol>, cells: SymbolCalc.Cells, flagged: set<string>,
                     value: map<string, UserValue>, ghost u: Setup, ghost v: Values)
    returns (read: map<Symbol, SymValue>)
    requires u.tab == tab && Solves(u, v) && Writable(u, v) && Ready(u, v, met, cells)
    requires Named(tab, written, cells, flagged, value) && (forall s :: s in written <==> s in met && cells[s].write)
    ensures Captured(u, v, met, read)
  {
    var types := TypesOf(tab);
    forall name | name in flagged
      ensures IsName(name) && name in types && name in value && Fits(types[name], value[name])
      ensures ConfigFile.NoNul(value[name])
    {
      var s :| s in written && s.name == name;
      WrittenFits(u, v, s);
    }
    assert forall s :: s in met ==> s.Config?;
    var names := Names(met);
    var def := ConfigFile.WriteThenRead(types, names, flagged, value);
    read := map s | s in tab && Listed(s) && s.name in def :: FromUser(def[s.name]);
    forall s | s in tab && Listed(s) ensures s.name in def <==> s in written {
      NameBack(tab, written, cells, flagged, value, s);
      if s in written {
        var n :| 0 <= n < |met| && met[n] == s;
        assert names[n] == s.name;
      }
    }
  }
}
