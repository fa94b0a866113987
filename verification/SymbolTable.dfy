/** What the parser and `menu_finalize` leave behind for every symbol (struct symbol, struct property). */
module SymbolTable {
  import opened Options
  import opened Exprs

  /** `Marker` stands for the property kinds that carry a visibility and nothing the engine reads. */
  datatype Property =
    | Prompt(visible: Option<Expr>)
    | Default(visible: Option<Expr>, value: Expr)
    | Select(visible: Option<Expr>, target: Symbol)
    | Marker(visible: Option<Expr>)

  datatype Definition = Definition(props: seq<Property>, dirDep: Option<Expr>, revDep: Option<Expr>)

  /** Every symbol that occurs anywhere, constants and undefined names included, has an entry. */
  type Table = map<Symbol, Definition>

  /** The operands of one property that the dependency check follows. */
  function PropEdges(p: Property): set<Symbol> {
    match p
    case Select(_, _) => {}
    case Default(vis, value) => SymbolsOpt(vis) + Symbols(value)
    case Prompt(vis) => SymbolsOpt(vis)
    case Marker(vis) => SymbolsOpt(vis)
  }

  function PropsEdges(ps: seq<Property>): set<Symbol> {
    if ps == [] then {} else PropEdges(ps[0]) + PropsEdges(ps[1..])
  }

  /** What a symbol is selected by, shown under and defaulted to. */
  function Edges(d: Definition): set<Symbol> {
    SymbolsOpt(d.revDep) + PropsEdges(d.props)
  }

  /** The dependency graph. */
  type Graph = map<Symbol, set<Symbol>>

  function GraphOf(tab: Table): Graph {
    map s | s in tab :: Edges(tab[s])
  }

  ghost predicate Agrees(tab: Table, g: Graph) {
    g.Keys <= tab.Keys && forall s {:trigger Edges(tab[s])} :: s in g ==> g[s] == Edges(tab[s])
  }

  ghost predicate Closed(g: Graph) {
    forall s :: s in g ==> g[s] <= g.Keys
  }

  /** `c[0]` depends on `c[1]` and so on, and the last on the first. */
  ghost predicate IsCycle(g: Graph, c: seq<Symbol>) {
    && |c| >= 1
    && (forall i :: 0 <= i < |c| ==> c[i] in g)
    && (forall i :: 0 <= i < |c| - 1 ==> c[i + 1] in g[c[i]])
    && c[0] in g[c[|c| - 1]]
  }

  /** A rank that falls along every edge. */
  ghost predicate Ranked(g: Graph, rank: map<Symbol, nat>) {
    && rank.Keys == g.Keys
    && forall s, t :: s in g && t in g[s] ==> t in g && rank[t] < rank[s]
  }

  lemma {:induction false} RankFalls(g: Graph, rank: map<Symbol, nat>, c: seq<Symbol>, i: nat)
    requires Ranked(g, rank) && IsCycle(g, c) && i < |c|
    ensures rank[c[i]] + i <= rank[c[0]]
  {
    if i > 0 { RankFalls(g, rank, c, i - 1); }
  }

  lemma RankedHasNoCycle(g: Graph, rank: map<Symbol, nat>, c: seq<Symbol>)
    requires Ranked(g, rank)
    ensures !IsCycle(g, c)
  {
    if IsCycle(g, c) { RankFalls(g, rank, c, |c| - 1); }
  }

  lemma {:induction false} PropsEdgesAppend(ps: seq<Property>, n: nat)
    requires n < |ps|
    ensures PropsEdges(ps[..n + 1]) == PropsEdges(ps[..n]) + PropEdges(ps[n])
    ensures PropEdges(ps[n]) <= PropsEdges(ps)
  {
    if n == 0 {
      assert ps[..1] == [ps[0]] && ps[..1][1..] == [] && ps[..0] == [];
    } else {
      PropsEdgesAppend(ps[1..], n - 1);
      assert ps[..n + 1][1..] == ps[1..][..n] && ps[..n][1..] == ps[1..][..n - 1];
    }
  }

  /* ---------- which edges there are ---------- */

  /** A symbol is followed from a property that is not a select, if its visibility or default value mentions it. */
  predicate Mentions(p: Property, t: Symbol) {
    !p.Select? && ((p.visible.Some? && t in Symbols(p.visible.value)) || (p.Default? && t in Symbols(p.value)))
  }

  lemma {:induction false} PropsEdgesAre(ps: seq<Property>, t: Symbol)
    ensures t in PropsEdges(ps) <==> exists j :: 0 <= j < |ps| && Mentions(ps[j], t)
  {
    if ps != [] {
      PropsEdgesAre(ps[1..], t);
      assert forall j :: 0 < j < |ps| ==> ps[1..][j - 1] == ps[j];
      if Mentions(ps[0], t) { assert t in PropEdges(ps[0]); }
      if j :| 0 <= j < |ps[1..]| && Mentions(ps[1..][j], t) { assert Mentions(ps[j + 1], t); }
    }
  }

  /** An edge leads to what selects the symbol and to what its properties other than selects mention, and nowhere
      else. */
  lemma EdgesAre(d: Definition, t: Symbol)
    ensures t in Edges(d) <==>
              (d.revDep.Some? && t in Symbols(d.revDep.value)) ||
              exists j :: 0 <= j < |d.props| && Mentions(d.props[j], t)
  {
    PropsEdgesAre(d.props, t);
  }

  /** The property list without its selects. */
  function Unselecting(ps: seq<Property>): seq<Property> {
    if ps == [] then [] else (if ps[0].Select? then [] else [ps[0]]) + Unselecting(ps[1..])
  }

  lemma {:induction false} UnselectingEdges(ps: seq<Property>)
    ensures PropsEdges(Unselecting(ps)) == PropsEdges(ps)
  {
    if ps != [] {
      UnselectingEdges(ps[1..]);
      var rest := Unselecting(ps[1..]);
      if ps[0].Select? {
        assert Unselecting(ps) == [] + rest == rest;
      } else {
        assert Unselecting(ps) == [ps[0]] + rest && ([ps[0]] + rest)[1..] == rest;
      }
    }
  }

  function Bare(d: Definition): Definition {
    d.(props := Unselecting(d.props))
  }

  lemma BareEdges(d: Definition)
    ensures Edges(Bare(d)) == Edges(d)
  {
    UnselectingEdges(d.props);
  }

  /** What a symbol selects is no dependency of it: without any select the graph is the same. */
  lemma SelectsAddNothing(tab: Table)
    ensures GraphOf(map s | s in tab :: Bare(tab[s])) == GraphOf(tab)
  {
    hide Edges, Bare;
    var bare: Table := map s | s in tab :: Bare(tab[s]);
    forall s | s in tab ensures Edges(bare[s]) == Edges(tab[s]) { BareEdges(tab[s]); }
    assert GraphOf(bare).Keys == GraphOf(tab).Keys;
  }

  /** `a` selects `b`. */
  function SelectingTable(a: Symbol, b: Symbol): Table {
    map[a := Definition([Select(None, b)], None, None), b := Definition([], None, Some(Sym(a)))]
  }

  /** That is no recursive dependency. */
  lemma SelectingRanked(a: Symbol, b: Symbol)
    requires a != b
    ensures Ranked(GraphOf(SelectingTable(a, b)), map[a := 0, b := 1])
  {
    var g := GraphOf(SelectingTable(a, b));
    assert g.Keys == {a, b};
    assert PropsEdges([Select(None, b)][1..]) == {};
    assert g[a] == {} && g[b] == {a};
  }
}
