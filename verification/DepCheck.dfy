/** `sym_check_deps`: a depth-first search for recursive dependencies with two flags per symbol
    and a stack kept for the error message. Choice groups are not part of this model. */
module DepCheck {
  import opened Options
  import opened Exprs
  import opened SymbolTable

  /** `struct dep_stack` with its `prev` pointers. */
  datatype Stack = Empty | Push(prev: Stack, sym: Symbol)

  function Elements(s: Stack): set<Symbol> {
    match s
    case Empty => {}
    case Push(p, x) => Elements(p) + {x}
  }

  /** No symbol is stacked twice and each entry depends on the one above it. */
  predicate Chain(g: Graph, s: Stack) {
    match s
    case Empty => true
    case Push(p, x) => x in g && x !in Elements(p) && Chain(g, p) && (p.Push? ==> p.sym in g && x in g[p.sym])
  }

  /** Symbols pushed in the order they were finished: everything a symbol needs lies below it. */
  predicate Topological(g: Graph, order: Stack) {
    match order
    case Empty => true
    case Push(p, x) => x in g && g[x] <= Elements(p) && Topological(g, p)
  }

  function Height(s: Stack): nat {
    match s
    case Empty => 0
    case Push(p, _) => Height(p) + 1
  }

  /** The lowest place a symbol has in a stack. */
  function Place(order: Stack, s: Symbol): nat
    requires s in Elements(order)
  {
    if s in Elements(order.prev) then Place(order.prev, s) else Height(order)
  }

  lemma {:induction false} PlaceBound(order: Stack, s: Symbol)
    requires s in Elements(order)
    ensures Place(order, s) <= Height(order)
  {
    if s in Elements(order.prev) { PlaceBound(order.prev, s); }
  }

  lemma {:induction false} PlaceFalls(g: Graph, order: Stack, s: Symbol, t: Symbol)
    requires Topological(g, order) && s in Elements(order) && s in g && t in g[s]
    ensures t in Elements(order) && Place(order, t) < Place(order, s)
  {
    if s in Elements(order.prev) {
      PlaceFalls(g, order.prev, s, t);
    } else {
      PlaceBound(order.prev, t);
    }
  }

  lemma {:induction false} TopologicalKeys(g: Graph, order: Stack)
    requires Topological(g, order)
    ensures Elements(order) <= g.Keys
  {
    if order.Push? { TopologicalKeys(g, order.prev); }
  }

  lemma PlacesRank(g: Graph, order: Stack) returns (rank: map<Symbol, nat>)
    requires Topological(g, order) && forall s :: s in g ==> s in Elements(order) || g[s] == {}
    ensures Ranked(g, rank)
  {
    TopologicalKeys(g, order);
    rank := map s | s in g :: if s in Elements(order) then Place(order, s) else 0;
    forall s, t | s in g && t in g[s] ensures t in g && rank[t] < rank[s] {
      PlaceFalls(g, order, s, t);
    }
  }

  /** The flags of all symbols, the stack, and what has been printed. */
  datatype State = State(
    unmarked: set<Symbol>,       // symbols with neither flag
    check: set<Symbol>,          // symbols with SYMBOL_CHECK and SYMBOL_CHECKED
    done: set<Symbol>,           // symbols with SYMBOL_CHECKED only
    stack: Stack,                // check_top
    cycles: nat,                 // "recursive dependency detected" reports
    unexpected: nat)             // "unexpected recursive dependency error" messages

  function Start(g: Graph): State {
    State(g.Keys, {}, {}, Empty, 0, 0)
  }

  ghost predicate HasCycle(g: Graph) {
    exists c :: IsCycle(g, c)
  }

  /** A report means a cycle, and as long as there was none, the finished symbols are in
      topological order. */
  ghost predicate Sound(g: Graph, st: State, finished: Stack) {
    && (forall s :: s in g ==> s in st.unmarked || s in st.check || s in st.done)
    && (st.cycles > 0 ==> HasCycle(g)) && st.unexpected == 0
    && (st.cycles == 0 ==> Topological(g, finished) && Elements(finished) == st.done)
  }

  /** Between calls the flag SYMBOL_CHECK marks exactly the symbols on the stack. */
  ghost predicate Valid(g: Graph, st: State, finished: Stack) {
    Sound(g, st, finished) && st.check == Elements(st.stack) && Chain(g, st.stack)
  }

  /** What is looked at next are dependencies of the top of the stack. */
  predicate Below(g: Graph, stack: Stack, need: set<Symbol>) {
    stack.Push? && stack.sym in g && need <= g[stack.sym]
  }

  /** The search below a symbol leaves the stack and the open symbols as they were. */
  predicate Grows(a: State, b: State) {
    && b.check == a.check && b.stack == a.stack && a.done <= b.done
    && a.cycles <= b.cycles && |b.unmarked| <= |a.unmarked|
  }

  /** What a search for `need` promises: all of it is done unless something was reported, and a
      symbol handed back is one still open. */
  predicate Searched(st: State, need: set<Symbol>, r: Option<Symbol>) {
    && (st.cycles == 0 ==> need <= st.done)
    && (r.Some? ==> r.value in st.check && st.cycles > 0)
  }

  /** Two searches in a row; the second one only runs if the first handed nothing back. */
  lemma SearchBoth(a: State, b: State, c: State, x: set<Symbol>, y: set<Symbol>, r: Option<Symbol>)
    requires Grows(a, b) && Grows(b, c)
    requires Searched(b, x, None) && Searched(c, y, r)
    ensures Grows(a, c) && Searched(c, x + y, r)
  {
  }

  /** Setting both flags, and clearing SYMBOL_CHECK again. */
  function Open(st: State, s: Symbol): State {
    st.(unmarked := st.unmarked - {s}, check := st.check + {s})
  }

  function Close(st: State, s: Symbol): State {
    st.(check := st.check - {s}, done := st.done + {s})
  }

  lemma OpenStep(g: Graph, st: State, finished: Stack, s: Symbol)
    requires Valid(g, st, finished) && s in g && s !in st.check && s !in st.done
    requires st.stack.Push? ==> Below(g, st.stack, {s})
    ensures Sound(g, Open(st, s), finished)
    ensures Chain(g, Push(st.stack, s)) && Open(st, s).check == Elements(Push(st.stack, s))
    ensures |Open(st, s).unmarked| < |st.unmarked|
  {
    assert s in st.unmarked;
  }

  /** The symbol is finished: its dependencies were, unless something was reported. */
  lemma CloseStep(g: Graph, a: State, b: State, finished: Stack, s: Symbol, r: Option<Symbol>)
    requires s in g && s !in a.check && |Open(a, s).unmarked| < |a.unmarked|
    requires Sound(g, b, finished) && Grows(Open(a, s), b) && Searched(b, g[s], r)
    ensures Sound(g, Close(b, s), if b.cycles == 0 then Push(finished, s) else finished)
    ensures Grows(a, Close(b, s))
    ensures Searched(Close(b, s), {s}, if r == Some(s) then None else r)
  {
    assert Close(b, s).check == a.check;
  }

  /** Once every symbol with dependencies has been visited, silence means a rank exists and noise means a cycle does. */
  lemma Verdict(g: Graph, st: State, finished: Stack) returns (rank: map<Symbol, nat>)
    requires Sound(g, st, finished)
    requires st.cycles == 0 ==> forall s :: s in g ==> s in st.done || g[s] == {}
    ensures st.cycles > 0 <==> HasCycle(g)
    ensures st.cycles == 0 ==> Ranked(g, rank)
  {
    rank := map[];
    if st.cycles == 0 {
      rank := PlacesRank(g, finished);
      forall c ensures !IsCycle(g, c) { RankedHasNoCycle(g, rank, c); }
    }
  }

  class Checker {
    const tab: Table
    const g: Graph
    var st: State
    ghost var finished: Stack

    constructor (table: Table)
      ensures tab == table && g == GraphOf(table) && Agrees(tab, g) && st == Start(g) && finished == Empty
    {
      tab, g := table, GraphOf(table);
      st, finished := Start(GraphOf(table)), Empty;
    }

    /** `sym_check_print_recursive`: find the symbol from the top down; what lies between is printed. */
    method PrintRecursive(s: Symbol) returns (printed: seq<Symbol>)
      requires Chain(g, st.stack) && Below(g, st.stack, {s})
      modifies this`st
      ensures s in Elements(st.stack) ==> IsCycle(g, printed) && printed[0] == s
      ensures s in Elements(st.stack) ==> st == old(st).(cycles := old(st).cycles + 1)
      ensures s !in Elements(st.stack) ==> st == old(st).(unexpected := old(st).unexpected + 1)
    {
      var p := st.stack;
      printed := [];
      while p.Push? && p.sym != s
        invariant Chain(g, p)
        invariant s in Elements(p) <==> s in Elements(st.stack)
        invariant Tail(g, st.stack, p, printed)
        decreases p
      {
        printed := [p.sym] + printed;
        p := p.prev;
      }
      if p.Empty? {
        st := st.(unexpected := st.unexpected + 1);
        return;
      }
      printed := [s] + printed;
      st := st.(cycles := st.cycles + 1);
    }

    /** `sym_check_deps` for a symbol outside choice groups. */
    method CheckDeps(s: Symbol) returns (r: Option<Symbol>)
      requires Closed(g) && Agrees(tab, g) && Valid(g, st, finished) && s in g
      requires st.stack.Push? ==> Below(g, st.stack, {s})
      modifies this
      ensures Valid(g, st, finished) && Grows(old(st), st) && Searched(st, {s}, r)
      decreases |st.unmarked|, 0, 0, 1
    {
      if s in st.check {
        var printed := PrintRecursive(s);
        r := Some(s);
      } else if s in st.done {
        r := None;
      } else {
        r := CheckUnmarked(s);
        if r == Some(s) {
          r := None;
        }
      }
    }

    /** The branch of `sym_check_deps` for a symbol met for the first time. */
    method CheckUnmarked(s: Symbol) returns (r: Option<Symbol>)
      requires Closed(g) && Agrees(tab, g) && Valid(g, st, finished)
      requires s in g && s !in st.check && s !in st.done
      requires st.stack.Push? ==> Below(g, st.stack, {s})
      modifies this
      ensures Valid(g, st, finished) && Grows(old(st), st)
      ensures Searched(st, {s}, if r == Some(s) then None else r)
      decreases |st.unmarked|, 0, 0, 0
    {
      OpenStep(g, st, finished, s);
      st := Open(st, s);
      r := CheckSymDeps(s);
      CloseStep(g, old(st), st, finished, s, r);
      finished := if st.cycles == 0 then Push(finished, s) else finished;
      st := Close(st, s);
    }

    /** `sym_check_sym_deps`: push the symbol, follow its expressions in order, pop it. */
    method CheckSymDeps(s: Symbol) returns (r: Option<Symbol>)
      requires Closed(g) && Agrees(tab, g) && s in g && Sound(g, st, finished)
      requires st.check == Elements(Push(st.stack, s)) && Chain(g, Push(st.stack, s))
      modifies this
      ensures Sound(g, st, finished) && Grows(old(st), st) && Searched(st, g[s], r)
      decreases |st.unmarked|, 2, 0
    {
      st := st.(stack := Push(st.stack, s));
      ghost var a := st;
      assert g[s] == Edges(tab[s]);
      r := CheckOpt(tab[s].revDep);
      ghost var b := st;
      if r.None? {
        r := CheckProps(s);
        SearchBoth(a, b, st, SymbolsOpt(tab[s].revDep), PropsEdges(tab[s].props), r);
      }
      st := st.(stack := st.stack.prev);
    }

    /** The loop over the property list. */
    method CheckProps(s: Symbol) returns (r: Option<Symbol>)
      requires s in tab
      requires Closed(g) && Agrees(tab, g) && Valid(g, st, finished) && Below(g, st.stack, PropsEdges(tab[s].props))
      modifies this
      ensures Valid(g, st, finished) && Grows(old(st), st) && Searched(st, PropsEdges(tab[s].props), r)
      decreases |st.unmarked|, 1, 2
    {
      var props := tab[s].props;
      r := None;
      var i := 0;
      while i < |props|
        invariant 0 <= i <= |props|
        invariant Valid(g, st, finished) && Grows(old(st), st)
        invariant r.None? && Searched(st, PropsEdges(props[..i]), r)
      {
        PropsEdgesAppend(props, i);
        ghost var b := st;
        r := CheckProp(props[i]);
        SearchBoth(old(st), b, st, PropsEdges(props[..i]), PropEdges(props[i]), r);
        if r.Some? {
          return;
        }
        i := i + 1;
      }
      assert props[..i] == props;
    }

    /** One round of that loop. */
    method CheckProp(p: Property) returns (r: Option<Symbol>)
      requires Closed(g) && Agrees(tab, g) && Valid(g, st, finished) && Below(g, st.stack, PropEdges(p))
      modifies this
      ensures Valid(g, st, finished) && Grows(old(st), st) && Searched(st, PropEdges(p), r)
      decreases |st.unmarked|, 1, 1
    {
      if p.Select? {
        return None;
      }
      r := CheckOpt(p.visible);
      ghost var b := st;
      if r.None? && p.Default? {
        r := CheckExpr(p.value);
        SearchBoth(old(st), b, st, SymbolsOpt(p.visible), Symbols(p.value), r);
      }
    }

    method CheckOpt(e: Option<Expr>) returns (r: Option<Symbol>)
      requires Closed(g) && Agrees(tab, g) && Valid(g, st, finished) && Below(g, st.stack, SymbolsOpt(e))
      modifies this
      ensures Valid(g, st, finished) && Grows(old(st), st) && Searched(st, SymbolsOpt(e), r)
      decreases |st.unmarked|, 1, 0
    {
      if e.None? {
        return None;
      }
      r := CheckExpr(e.value);
    }

    /** `sym_check_expr_deps`. */
    method CheckExpr(e: Expr) returns (r: Option<Symbol>)
      requires Closed(g) && Agrees(tab, g) && Valid(g, st, finished) && Below(g, st.stack, Symbols(e))
      modifies this
      ensures Valid(g, st, finished) && Grows(old(st), st) && Searched(st, Symbols(e), r)
      decreases |st.unmarked|, 0, Size(e)
    {
      match e
      case And(a, b) => r := CheckBoth(a, b);
      case Or(a, b) => r := CheckBoth(a, b);
      case Not(a) => r := CheckExpr(a);
      case Equal(a, b) => r := CheckPair(a, b);
      case Unequal(a, b) => r := CheckPair(a, b);
      case Sym(s) => r := CheckDeps(s);
    }

    method CheckBoth(x: Expr, y: Expr) returns (r: Option<Symbol>)
      requires Closed(g) && Agrees(tab, g) && Valid(g, st, finished) && Below(g, st.stack, Symbols(x) + Symbols(y))
      modifies this
      ensures Valid(g, st, finished) && Grows(old(st), st) && Searched(st, Symbols(x) + Symbols(y), r)
      decreases |st.unmarked|, 0, Size(x) + Size(y)
    {
      r := CheckExpr(x);
      ghost var b := st;
      if r.None? {
        r := CheckExpr(y);
        SearchBoth(old(st), b, st, Symbols(x), Symbols(y), r);
      }
    }

    method CheckPair(x: Symbol, y: Symbol) returns (r: Option<Symbol>)
      requires Closed(g) && Agrees(tab, g) && Valid(g, st, finished) && Below(g, st.stack, {x, y})
      modifies this
      ensures Valid(g, st, finished) && Grows(old(st), st) && Searched(st, {x, y}, r)
      decreases |st.unmarked|, 0, 0, 2
    {
      r := CheckDeps(x);
      ghost var b := st;
      if r.None? {
        r := CheckDeps(y);
        SearchBoth(old(st), b, st, {x}, {y}, r);
        assert {x} + {y} == {x, y};
      }
    }

    /** The loop of `conf_parse` over the symbol table, with its error count. The table does not hold the
        three constants, which depend on nothing. */
    method CheckAll(symbols: seq<Symbol>) returns (errors: nat, ghost rank: map<Symbol, nat>)
      requires Closed(g) && Agrees(tab, g) && st == Start(g) && finished == Empty
      requires (forall i :: 0 <= i < |symbols| ==> symbols[i] in g)
      requires (forall s :: s in g ==> s in symbols || g[s] == {})
      modifies this
      ensures st.check == {} && st.stack == Empty && st.unexpected == 0
      ensures st.cycles > 0 <==> HasCycle(g)
      ensures st.cycles == 0 ==> Ranked(g, rank)
      ensures errors == 0
    {
      errors := 0;
      var i := 0;
      ghost var visited: set<Symbol> := {};
      while i < |symbols|
        invariant 0 <= i <= |symbols|
        invariant Valid(g, st, finished) && st.stack == Empty
        invariant st.cycles == 0 ==> visited <= st.done
        invariant forall j :: 0 <= j < i ==> symbols[j] in visited
        invariant errors == 0
      {
        var r := CheckDeps(symbols[i]);
        visited := visited + {symbols[i]};
        errors := errors + (if r.Some? then 1 else 0);
        i := i + 1;
      }
      rank := Verdict(g, st, finished);
    }
  }

  /** `printed` holds the entries above `p`, each a dependency of the one before it. */
  ghost predicate Tail(g: Graph, stack: Stack, p: Stack, printed: seq<Symbol>) {
    && (printed == [] ==> p == stack)
    && (printed != [] ==>
          && stack.Push? && printed[|printed| - 1] == stack.sym
          && (p.Push? ==> p.sym in g && printed[0] in g[p.sym]))
    && (forall i :: 0 <= i < |printed| ==> printed[i] in g)
    && (forall i :: 0 <= i < |printed| - 1 ==> printed[i + 1] in g[printed[i]])
  }
}
