/** `menu_finalize`: dependencies flow down the tree, entries that depend on the one before them
    move below it, and menus without a prompt dissolve, all by rewriting the pointers in place. */
module MenuFinalize {
  import opened Options
  import opened Exprs
  import opened Compare
  import opened Absorption
  import opened SymbolTable
  import opened SymbolSpec
  import opened SymbolTheorems
  import opened MenuTree
  import opened MenuBooks
  import opened MenuShape

  class Menus {
    var links: Heap
    var data: map<Id, Entry>
    var rev: map<Symbol, Expr>
    var dir: map<Symbol, Expr>
    ghost const table: set<Symbol>
    ghost const orig: map<Id, Entry>
    ghost const up: map<Id, Id>
    ghost const order: seq<Id>
    const root: Id
    ghost var done: set<Id>
    ghost var under: map<Id, Id>
    ghost var stop: map<Id, Ptr>
    ghost var terms: seq<Term>
    ghost var dirs: seq<Term>
    ghost var log: seq<Id>
    ghost var owed: seq<Id>

    /** The tree as the parser built it. */
    constructor (heap: Heap, entries: map<Id, Entry>, r: Id, ghost symbols: set<Symbol>, ghost f: Forest)
      requires r in heap && heap[r].parent.None? && heap[r].next.None? && Linked(heap, heap[r].list, Some(r), f)
      requires Distinct([r] + Pre(f)) && heap.Keys == entries.Keys && forall i :: i in entries ==> Proper(entries[i])
      requires SimpleOpt(entries[r].dep) && SimpleProps(entries[r].props) && entries[r].sym.None?
      requires Scoped(symbols, entries, [], [])
      ensures Inv() && root == r && orig == entries && order == [r] + Pre(f) && table == symbols
      ensures links == heap && data == entries && UpsFrom(heap, V())
      ensures done == {r} && log == [] && owed == [] && Starts(f)
    {
      links, data, rev, dir := heap, entries, map[], map[];
      orig, order, root, table := entries, [r] + Pre(f), r, symbols;
      done, under, stop := {r}, map[], map[];
      terms, dirs, log, owed := [], [], [], [];
      up := map i | i in heap && heap[i].parent.Some? :: heap[i].parent.value;
      new;
      hide Books;
      ParsedBooks(V(), L());
      ParsedReady(heap, V(), r, f);
    }

    /** Nothing has been done, and `f` is the tree below the root. */
    ghost predicate Starts(f: Forest)
      reads this
    {
      && log == [] && owed == [] && Distinct(Pre(Cons(root, f, Nil))) && Located(V(), None, [], Cons(root, f, Nil))
      && Ready(V(), Cons(root, f, Nil), None) && Linked(links, Some(root), None, Cons(root, f, Nil))
    }

    /** `menu_finalize(&rootmenu)` and then the walk of `conf_write`. */
    method FinalizeAll(ghost f: Forest) returns (visited: seq<Id>, ghost f': Forest)
      requires Inv() && Starts(f)
      modifies this
      ensures root in links && Linked(links, links[root].list, Some(root), f') && Flat(orig, f')
      ensures Pre(f') == Pre(f) && visited == Pre(f) && log == [root] + Pre(f) && owed == []
      ensures Inv() && (forall i :: i in log ==> i in done && Noted(V(), terms, dirs, i))
      ensures forall i :: i in done ==> i in old(done) || i in [root] + Pre(f)
      ensures Placed(V(), root, links, Pre(f)) && !Hosted(V(), root)
    {
      hide Books, Finalised, Placed, Flat, Ready;
      ghost var all := Cons(root, f, Nil);
      ghost var g := Finalize(root, None, all);
      RootDone(old(links), links, old(V()), V(), log, root, f, g);
      f' := g.kids;
      visited := Walk(links, root, f');
      AllNoted();
    }

    ghost function V(): View
      reads this`data, this`done, this`under, this`stop
    {
      View(orig, up, order, data, done, under, stop)
    }

    ghost function L(): Ledger
      reads this`terms, this`rev, this`dirs, this`dir, this`log, this`owed
    {
      Ledger(root, table, terms, rev, dirs, dir, log, owed)
    }

    ghost predicate Inv()
      reads this
    {
      links.Keys == data.Keys && Good()
    }

    ghost predicate Good()
      reads this`data, this`done, this`under, this`stop, this`terms, this`rev, this`dir, this`dirs, this`log, this`owed
    {
      Books(V(), L())
    }

    lemma EntryKnown(i: Id)
      requires Inv() && i in data
      ensures i in orig && Proper(data[i]) && data[i].sym == orig[i].sym && data[i].prompt == orig[i].prompt
      ensures root in done && root in orig && orig[root].sym.None? && root !in up && done <= data.Keys
      ensures i in done && i != root ==> i in up
    {
      if i in done { assert Inherited(V(), root, i); }
    }

    /** What is needed of an entry, of the one above it and of the books for the entry to inherit. */
    lemma HandedDown(i: Id, p: Id)
      requires Inv() && i in data && p in done
      ensures p in data && Proper(data[p]) && SimpleOpt(ParentDep(data[p])) && SymbolsOpt(ParentDep(data[p])) <= table
      ensures EntryScoped(data[i], table) && WithConstants({}) <= table && TermsScoped(terms, table)
      ensures rev == Accumulate(terms)
    {
      assert Inherited(V(), root, p) && EntryScoped(data[p], table);
    }

    lemma AllNoted()
      requires Inv() && owed == []
      ensures forall i :: i in log ==> i in done && Noted(V(), terms, dirs, i)
    {
    }

    lemma AllKnown()
      requires Inv()
      ensures SamePrompts() && forall i :: i in data ==> Proper(data[i])
    {
    }

    ghost predicate SamePrompts()
      reads this`data
    {
      forall i :: i in data ==> i in orig && data[i].prompt == orig[i].prompt
    }

    /** `expr_alloc_or` onto the reverse dependency of a symbol. */
    method AddReverse(t: Term)
      requires rev == Accumulate(terms)
      modifies this`rev, this`terms
      ensures rev == Accumulate(terms) && terms == old(terms) + [t]
    {
      AccumulateAppend(terms, t);
      rev := AddTerm(rev, t);
      terms := terms + [t];
    }

    /** One property of an entry; a `select` also reaches its target. */
    method InheritProp(sym: Option<Symbol>, dep: Option<Expr>, p: Property, transBool: bool) returns (q: Property)
      requires SimpleOpt(dep) && FixedOpt(dep) && (p.Select? ==> sym.Some?) && rev == Accumulate(terms)
      requires SymbolsOpt(dep) <= table && PropScoped(p, table)
      requires (sym.Some? ==> sym.value in table && !IsTriConstant(sym.value))
      requires WithConstants({}) <= table && TermsScoped(terms, table)
      modifies this`rev, this`terms
      ensures PropScoped(q, table) && TermsScoped(terms, table)
      ensures PropInherits(dep, p, q, transBool) && SimpleOpt(q.visible)
      ensures rev == Accumulate(terms)
      ensures terms == if q.Select? && sym.Some? then old(terms) + [SelectTerm(sym.value, q)] else old(terms)
    {
      var vis := CombineDep(dep, p.visible, transBool);
      q := p.(visible := vis);
      if q.Select? {
        AddReverse(SelectTerm(sym.value, q));
      }
    }

    /** The properties of an entry, one after the other. */
    method InheritProps(e: Entry, dep: Option<Expr>) returns (props: seq<Property>)
      requires Proper(e) && SimpleOpt(dep) && FixedOpt(dep) && rev == Accumulate(terms)
      requires EntryScoped(e, table) && SymbolsOpt(dep) <= table && WithConstants({}) <= table
      requires TermsScoped(terms, table)
      modifies this`rev, this`terms
      ensures PropsScoped(props, table) && TermsScoped(terms, table)
      ensures |props| == |e.props| && SimpleProps(props) && PropsInherit(dep, e.props, props, PromotesM(e))
      ensures rev == Accumulate(terms) && Extends(old(terms), terms) && SelectsIn(e.sym, props, terms)
      ensures forall t :: t in terms ==> t in old(terms) || FromSelect(e.sym, props, t)
    {
      props := [];
      while |props| < |e.props|
        invariant |props| <= |e.props| && rev == Accumulate(terms) && Extends(old(terms), terms)
        invariant SimpleProps(props) && PropsInherit(dep, e.props, props, PromotesM(e))
        invariant SelectsIn(e.sym, props, terms)
        invariant forall t :: t in terms ==> t in old(terms) || FromSelect(e.sym, props, t)
        invariant PropsScoped(props, table) && TermsScoped(terms, table)
      {
        var q := InheritProp(e.sym, dep, e.props[|props|], PromotesM(e));
        assert PropsInherit(dep, e.props, props + [q], PromotesM(e));
        MoreSelects(e.sym, props, q, terms);
        props := props + [q];
      }
    }

    /** One round of the first loop over the children: the entry and each of its properties. */
    method Inherit(i: Id, base: Option<Expr>, ghost p: Id)
      requires Inv() && i in data && i in orig && data[i] == orig[i] && i !in done && i in up && up[i] == p
      requires p in done && base == ParentDep(data[p])
      modifies this`data, this`rev, this`done, this`terms
      ensures Inv() && i in done && Grown(old(V()), V(), [i])
    {
      hide Books, Grown, PropsInherit, SelectsIn, FromSelect;
      var e := data[i];
      EntryKnown(i);
      HandedDown(i, p);
      var dep := CombineDep(base, e.dep, false);
      var props := InheritProps(e, dep);
      var e' := e.(dep := dep, props := props);
      data := data[i := e'];
      done := done + {i};
      assert Inherits(base, e, e');
      BooksStep(old(V()), V(), old(L()), L(), i, p, e');
    }

    /** How far the first loop over the children has come: `a` is done, `b` is still fresh. */
    ghost predicate Propagating(u: View, p: Id, k: Forest, m: Ptr, a: Forest, b: Forest)
      reads this
    {
      && p in data && p in done && Linked(links, m, Some(p), b)
      && k == Append(a, b) && Pre(k) == Pre(a) + Pre(b)
      && Ready(V(), a, Some(p)) && Fresh(V(), b, p) && Grown(u, V(), Pre(a))
    }

    /** The first loop over the children. */
    method PropagateKids(p: Id, ghost k: Forest)
      requires Inv() && p in data && p in done && Fresh(V(), k, p) && Distinct(Pre(k))
      requires p in links && Linked(links, links[p].list, Some(p), k)
      modifies this`data, this`rev, this`done, this`terms
      ensures Inv() && Ready(V(), k, Some(p)) && Grown(old(V()), V(), Pre(k))
    {
      hide Books;
      EntryKnown(p);
      var m := links[p].list;
      var base := ParentDep(data[p]);
      ghost var a, b := Nil, k;
      while m.Some?
        invariant Inv() && Propagating(old(V()), p, k, m, a, b) && base == ParentDep(data[p])
        decreases |Pre(b)|
      {
        PropagateOne(m.value, base, old(V()), p, k, a, b);
        a, b := Take(a, b), b.rest;
        m := links[m.value].next;
      }
      AppendNil(a);
    }

    method PropagateOne(i: Id, base: Option<Expr>, ghost u: View, ghost p: Id, ghost k: Forest, ghost a: Forest,
                        ghost b: Forest)
      requires Inv() && Propagating(u, p, k, Some(i), a, b) && base == ParentDep(data[p]) && Distinct(Pre(k))
      modifies this`data, this`rev, this`done, this`terms
      ensures i in links && Inv() && Propagating(u, p, k, links[i].next, Take(a, b), b.rest)
      ensures base == ParentDep(data[p])
    {
      hide Books;
      EntryKnown(p);
      ghost var v := V();
      Inherit(i, base, p);
      PropagateStep(u, v, V(), p, a, b);
      TakeShape(a, b);
    }

    /** Move the children of `m` up: they become its siblings, below `p`. */
    method Splice(m: Id, p: Id, ghost b: Forest)
      requires b.Cons? && b.id == m && b.kids.Cons? && Linked(links, Some(m), Some(p), b) && Distinct(Pre(b))
      modifies this`links
      ensures Linked(links, Some(m), Some(p), Cons(m, Nil, Append(b.kids, b.rest)))
      ensures OnlyIn(old(links), links, Pre(b)) && links[m].parent == old(links)[m].parent
    {
      ForestParts(b);
      LinkedParts(links, Some(m), Some(p), b);
      ghost var k, r := b.kids, b.rest;
      var last := Reparent(links[m].list.value, m, p, k);
      SegKept(old(links), links, links[m].next, Some(p), r, None, Pre(k));
      SegRetarget(links, links[m].list, Some(p), k, None, links[m].next);
      LastInPre(k);
      ghost var h := links;
      links := links[last := links[last].(next := links[m].next)];
      SegKept(h, links, links[m].next, Some(p), r, None, [last]);
      SegAppend(links, links[m].list, Some(p), k, links[m].next, r, None);
      ghost var g := links;
      links := links[m := links[m].(next := links[m].list)];
      links := links[m := links[m].(list := None)];
      SegKept(g, links, g[m].list, Some(p), Append(k, r), None, [m]);
    }

    /** The loop that gives the children of `m` their new parent; it stops at the last of them. */
    method Reparent(first: Id, ghost m: Id, p: Id, ghost k: Forest) returns (last: Id)
      requires k.Cons? && Linked(links, Some(first), Some(m), k) && Distinct(Pre(k))
      modifies this`links
      ensures Linked(links, Some(first), Some(p), k) && OnlyIn(old(links), links, Pre(k)) && last == Last(k)
    {
      last := first;
      ghost var a, b := Nil, k;
      while true
        invariant Seg(links, Some(first), Some(p), a, Some(last)) && Linked(links, Some(last), Some(m), b) && b.Cons?
        invariant Append(a, b) == k && Pre(a) + Pre(b) == Pre(k) && OnlyIn(old(links), links, Pre(k))
        decreases |Pre(b)|
      {
        ghost var h := links;
        DistinctParts(Pre(a), Pre(b));
        ForestParts(b);
        LinkedParts(h, Some(last), Some(m), b);
        links := links[last := links[last].(parent := Some(p))];
        SegKept(h, links, Some(first), Some(p), a, Some(last), [last]);
        SegKept(h, links, h[last].list, Some(last), b.kids, None, [last]);
        SegKept(h, links, h[last].next, Some(m), b.rest, None, [last]);
        Boundary(links, Some(first), Some(p), a, last, b);
        TakeShape(a, b);
        LastTake(a, b);
        a, b := Take(a, b), b.rest;
        if links[last].next.None? {
          AppendNil(a);
          break;
        }
        last := links[last].next.value;
      }
    }

    ghost predicate Finalising(r: Round, k: Forest, m: Ptr, a: Forest, b: Forest)
      reads this
    {
      Progressed(r, links, V(), log, k, m, a, b)
    }

    method SetParent(m: Id, p: Ptr)
      requires Inv() && m in links
      modifies this`links
      ensures Inv() && links == old(links)[m := old(links)[m].(parent := p)]
    {
      hide Books;
      links := links[m := links[m].(parent := p)];
    }

    /** The sibling `m` has been taken in by `p`. */
    ghost method TakeOver(m: Id, p: Id)
      requires Inv() && m !in under && AbsorbedBy(V(), m, p)
      modifies this`under
      ensures Inv() && under == old(under)[m := p]
    {
      ghost var v := V();
      under := under[m := p];
      AbsorbedMore(v, V(), m, p);
      BooksPlaced(v, V(), L(), [m]);
    }

    /** One round of such a loop, with the new parent if there is one. */
    method FinaliseOne(m: Id, above: Ptr, ghost r: Round, ghost k: Forest, ghost a: Forest, ghost b: Forest)
      returns (ghost b': Forest)
      requires Inv() && Distinct(Pre(k)) && r.above == above && Finalising(r, k, Some(m), a, b)
      requires Located(V(), r.par, r.log, k) && above.Some?
      requires above != r.par ==> AbsorbedBy(V(), m, above.value)
      modifies this
      ensures Inv() && m in links && b'.Cons? && b'.id == m
      ensures Finalising(r, k, links[m].next, Take(a, b'), b'.rest) && |Pre(b'.rest)| < |Pre(b)|
      ensures Grown(old(V()), V(), Pre(k))
      ensures above != r.par ==> m in under && under[m] == above.value
      ensures owed == old(owed)
      decreases |Pre(b)|, 1
    {
      hide Books;
      ghost var h, v := links, V();
      assert Distinct(Pre(b)) by { DistinctParts(Pre(a), Pre(b)); }
      LocatedLater(v, r.par, r.log, k, a, b);
      b' := Finalize(m, r.par, b);
      MoveBelow(m, above, r, h, v, old(log), k, a, b, b');
    }

    /** Its end: the finalised sibling goes where it belongs. */
    method MoveBelow(m: Id, above: Ptr, ghost r: Round, ghost h: Heap, ghost v: View, ghost before: seq<Id>,
                     ghost k: Forest, ghost a: Forest, ghost b: Forest, ghost b': Forest)
      requires Inv() && Distinct(Pre(k)) && r.above == above && Progressed(r, h, v, before, k, Some(m), a, b)
      requires Finalised(h, links, v, V(), before, log, r.par, m, b, b')
      requires above.Some? && (above != r.par ==> AbsorbedBy(v, m, above.value))
      modifies this`links, this`under
      ensures Inv() && m in links && b'.Cons? && b'.id == m
      ensures Finalising(r, k, links[m].next, Take(a, b'), b'.rest) && |Pre(b'.rest)| < |Pre(b)|
      ensures Grown(v, V(), Pre(k))
      ensures above != r.par ==> m in under && under[m] == above.value
    {
      hide Books;
      ghost var g, w := links, V();
      if above != r.par {
        AbsorbedKept(v, w, m, above.value, Pre(b));
        TakeOver(m, above.value);
      }
      SetParent(m, above);
      RoundDone(r, h, g, links, v, w, V(), before, log, k, m, a, b, b');
    }

    /** The loop that finalises the children. */
    method FinaliseKids(p: Id, ghost k: Forest) returns (ghost k': Forest)
      requires Inv() && Distinct(Pre(k)) && Ready(V(), k, Some(p)) && Located(V(), Some(p), log, k)
      requires p in links && p !in Pre(k) && Linked(links, links[p].list, Some(p), k)
      modifies this
      ensures Inv() && Linked(links, links[p].list, Some(p), k') && Pre(k') == Pre(k)
      ensures AllDone(V(), Pre(k')) && FlatBelow(orig, k') && log == old(log) + Pre(k')
      ensures Hung(V(), k', Some(p), Pre(k'))
      ensures OnlyIn(old(links), links, Pre(k)) && Grown(old(V()), V(), Pre(k))
      ensures owed == old(owed)
      decreases |Pre(k)|, 2
    {
      hide Books;
      var m := links[p].list;
      ghost var a, b := Nil, k;
      ghost var r := Round(V(), links, log, links[p].list, Some(p), Some(p));
      while m.Some?
        invariant Inv() && Finalising(r, k, m, a, b)
        invariant |Pre(b)| <= |Pre(k)| && owed == old(owed) && Located(V(), Some(p), r.log, k)
        decreases |Pre(b)|
      {
        ghost var b' := FinaliseOne(m.value, Some(p), r, k, a, b);
        a, b := Take(a, b'), b'.rest;
        m := links[m.value].next;
      }
      k' := a;
    }

    /** What the loop of an entry that had no children needs to know. */
    ghost predicate MayTakeIn(p: Id, sym: Symbol, prompt: Option<Expr>, par: Ptr)
      reads this
    {
      && p in done && p in data && Proper(data[p]) && data[p].sym == Some(sym) && prompt == PromptDep(data[p])
      && par.Some? && UpIs(V(), p, par) && Childless(V(), p) && par != Some(p)
    }

    /** How far that loop has come: `a` has been taken in. */
    ghost predicate Absorbing(p: Id, sym: Symbol, prompt: Option<Expr>, r: Round, k: Forest, m: Ptr, a: Forest,
                              b: Forest)
      reads this
    {
      && Progressed(r, links, V(), log, k, m, a, b) && TakenIn(V(), p, a)
      && MayTakeIn(p, sym, prompt, r.par) && Located(V(), r.par, r.log, k) && r.above == Some(p)
    }

    lemma AbsorbingEnd(p: Id, sym: Symbol, prompt: Option<Expr>, r: Round, k: Forest, a: Forest, b: Forest)
      requires Absorbing(p, sym, prompt, r, k, None, a, b)
      ensures b.Nil?
    {
    }

    /** The loop over the entries after `p`: those that pass the test are taken in, up to the first that does not. */
    method AbsorbLoop(p: Id, sym: Symbol, prompt: Option<Expr>, ghost r: Round, ghost k: Forest)
      returns (last: Ptr, ghost m: Ptr, ghost a: Forest, ghost b: Forest)
      requires Inv() && Distinct(Pre(k)) && p in links && Absorbing(p, sym, prompt, r, k, links[p].next, Nil, k)
      modifies this
      ensures Inv() && Absorbing(p, sym, prompt, r, k, m, a, b)
      ensures last == if a.Nil? then None else Some(Last(a))
      ensures b.Cons? ==> Halted(V(), p, b.id)
      ensures owed == old(owed)
      decreases |Pre(k)|, 3
    {
      hide Books, Absorbing, Halted;
      var menu := links[p].next;
      last, a, b := None, Nil, k;
      while menu.Some?
        invariant Inv() && Absorbing(p, sym, prompt, r, k, menu, a, b) && |Pre(b)| <= |Pre(k)|
        invariant last == if a.Nil? then None else Some(Last(a))
        invariant owed == old(owed)
        decreases |Pre(b)|
      {
        var test := Test(menu.value, p, sym, prompt, r, k, a, b);
        if !test {
          m := menu;
          return;
        }
        ghost var b' := FinaliseNext(menu.value, p, sym, prompt, r, k, a, b);
        last := menu;
        a, b := Take(a, b'), b'.rest;
        menu := links[menu.value].next;
      }
      AbsorbingEnd(p, sym, prompt, r, k, a, b);
      m := menu;
    }

    /** The test for the next sibling. */
    method Test(menu: Id, ghost p: Id, sym: Symbol, prompt: Option<Expr>, ghost r: Round, ghost k: Forest,
                ghost a: Forest,
                ghost b: Forest)
      returns (test: bool)
      requires Inv() && Absorbing(p, sym, prompt, r, k, Some(menu), a, b)
      ensures test ==> AbsorbedBy(V(), menu, p)
      ensures !test ==> b.Cons? && Halted(V(), p, b.id)
    {
      hide Books;
      ReadyFirst(V(), b, r.par);
      EntryKnown(menu);
      test := BelongsBelow(sym, prompt, OwnDep(data[menu]));
    }

    /** One round of that loop. */
    method FinaliseNext(menu: Id, p: Id, ghost sym: Symbol, ghost prompt: Option<Expr>, ghost r: Round, ghost k: Forest,
                        ghost a: Forest, ghost b: Forest)
      returns (ghost b': Forest)
      requires Inv() && Distinct(Pre(k)) && Absorbing(p, sym, prompt, r, k, Some(menu), a, b)
      requires AbsorbedBy(V(), menu, p)
      modifies this
      ensures Inv() && menu in links && b'.Cons? && owed == old(owed)
      ensures Absorbing(p, sym, prompt, r, k, links[menu].next, Take(a, b'), b'.rest)
      ensures |Pre(b'.rest)| < |Pre(b)| && Take(a, b').Cons? && Last(Take(a, b')) == menu
      decreases |Pre(b)|, 2
    {
      hide Books;
      ghost var v := V();
      b' := FinaliseOne(menu, Some(p), r, k, a, b);
      ChildlessKept(v, V(), p);
      LocatedKept(v, V(), r.par, r.log, k);
      TakenInTake(v, V(), p, a, b', Pre(k));
      LastTake(a, b');
    }

    lemma AbsorbingStart(p: Id, sym: Symbol, prompt: Option<Expr>, r: Round, f: Forest)
      requires Inv() && f.Cons? && f.id == p && Linked(links, Some(p), r.par, f) && Ready(V(), f, r.par)
      requires p in links && r == Round(V(), links, log, links[p].next, Some(p), r.par)
      requires MayTakeIn(p, sym, prompt, r.par) && Located(V(), r.par, log, f.rest)
      ensures Absorbing(p, sym, prompt, r, f.rest, links[p].next, Nil, f.rest)
    {
      hide Books;
    }

    /** Entries that depend on the symbol of the entry before them move below it. */
    method Absorb(p: Id, sym: Symbol, ghost par: Ptr, ghost f: Forest) returns (ghost f': Forest)
      requires Inv() && f.Cons? && f.id == p && f.kids.Nil? && Linked(links, Some(p), par, f) && Distinct(Pre(f))
      requires Ready(V(), f, par) && p in data && data[p].sym == Some(sym) && Located(V(), par, log, f.rest)
      requires Proper(data[p]) && MayTakeIn(p, sym, PromptDep(data[p]), par)
      modifies this
      ensures Inv() && f'.Cons? && f'.id == p && Linked(links, Some(p), par, f') && Pre(f') == Pre(f)
      ensures |Pre(f'.rest)| <= |Pre(f.rest)| && AllDone(V(), Pre(f'.kids)) && Ready(V(), f'.rest, par)
      ensures FlatBelow(orig, f'.kids) && Hung(V(), f'.kids, Some(p), Pre(f'.kids)) && Loose(V(), p)
      ensures log == old(log) + Pre(f'.kids)
      ensures OnlyIn(old(links), links, Pre(f)) && Grown(old(V()), V(), Pre(f))
      ensures TakenIn(V(), p, f'.kids) && (f'.rest.Cons? ==> Halted(V(), p, f'.rest.id))
      ensures owed == old(owed)
      decreases |Pre(f)|, 0, 1, 0
    {
      hide Books, Absorbing, Halted;
      assert Distinct(Pre(f.rest)) && |Pre(f.rest)| < |Pre(f)| by { ForestParts(f); }
      ReadyFirst(V(), f, par);
      ghost var r := Round(V(), links, log, links[p].next, Some(p), par);
      AbsorbingStart(p, sym, PromptDep(data[p]), r, f);
      var last;
      ghost var m, a, b;
      ghost var prompt := PromptDep(data[p]);
      last, m, a, b := AbsorbLoop(p, sym, PromptDep(data[p]), r, f.rest);
      f' := Cons(p, a, b);
      Adopt(p, last, sym, prompt, r, f, m, a, b);
    }

    /** After the loop: the entries it passed become the children of `p`. */
    method Adopt(p: Id, last: Ptr, ghost sym: Symbol, ghost prompt: Option<Expr>, ghost r: Round, ghost f: Forest,
                 ghost m: Ptr, ghost a: Forest, ghost b: Forest)
      requires Inv() && f.Cons? && f.id == p && f.kids.Nil? && Distinct(Pre(f)) && Linked(r.heap, Some(p), r.par, f)
      requires p in r.heap && r.first == r.heap[p].next && Loose(r.view, p)
      requires Absorbing(p, sym, prompt, r, f.rest, m, a, b) && last == if a.Nil? then None else Some(Last(a))
      modifies this`links
      ensures Inv() && Linked(links, Some(p), r.par, Cons(p, a, b)) && Pre(Cons(p, a, b)) == Pre(f)
      ensures |Pre(b)| <= |Pre(f.rest)| && OnlyIn(r.heap, links, Pre(f)) && Grown(r.view, V(), Pre(f))
      ensures AllDone(V(), Pre(a)) && Ready(V(), b, r.par) && FlatBelow(orig, a) && Hung(V(), a, Some(p), Pre(a))
      ensures Loose(V(), p) && TakenIn(V(), p, a) && log == r.log + Pre(a)
    {
      hide Books, Located, MayTakeIn, Grown, Hung, TakenIn, AllDone, Flat, FlatBelow, Ready;
      AbsorbShape(r, links, V(), log, f, m, a, b);
      ghost var h := links;
      TakeIn(p, last, r.par, m, a, b);
      OnlyInTrans(r.heap, h, links, Pre(f), Pre(f), Pre(f));
    }

    /** `expr_alloc_or` onto the direct dependency of a symbol; a missing dependency adds nothing. */
    method AddDirect(p: Id, sym: Symbol)
      requires Inv() && p in done && p in data && data[p].sym == Some(sym)
      modifies this`dir, this`dirs
      ensures Inv() && NotedDirect(V(), dirs, p)
      ensures dirs == if data[p].dep.Some? then old(dirs) + [Term(sym, data[p].dep.value)] else old(dirs)
    {
      if data[p].dep.Some? {
        var t := Term(sym, data[p].dep.value);
        BooksDirect(V(), L(), p);
        AccumulateAppend(dirs, t);
        dir := AddTerm(dir, t);
        dirs := dirs + [t];
      }
    }

    /** The entry stopped where `g`, with what it took in, ends. */
    ghost method Halt(p: Id, par: Ptr, before: seq<Id>, g: Forest)
      requires Inv() && g.Cons? && g.id == p && p in done && p in up && p !in stop && UpIs(V(), p, par)
      requires Located(V(), par, before, g) && Hung(V(), g.kids, Some(p), Pre(g.kids))
      requires g.rest.Cons? ==> Halted(V(), p, g.rest.id)
      modifies this`stop
      ensures Inv() && stop == old(stop)[p := if g.rest.Nil? then None else Some(g.rest.id)]
    {
      hide Books, Hung, Located;
      ghost var v := V();
      OrderKnown();
      RanHere(v, par, before, g);
      stop := stop[p := if g.rest.Nil? then None else Some(g.rest.id)];
      ghost var hi := if g.rest.Nil? then |order| else |before| + 1 + |Pre(g.kids)|;
      StopMore(v, V(), p, |before|, hi);
      BooksPlaced(v, V(), L(), [p]);
    }

    /** The siblings up to `last`, if any, become the children of `p`. */
    method TakeIn(p: Id, last: Ptr, ghost par: Ptr, ghost m: Ptr, ghost a: Forest, ghost b: Forest)
      requires p in links && links[p].parent == par && links[p].list.None? && Distinct(Pre(Cons(p, a, b)))
      requires last == if a.Nil? then None else Some(Last(a))
      requires Seg(links, links[p].next, Some(p), a, m) && Linked(links, m, par, b)
      modifies this`links
      ensures Linked(links, Some(p), par, Cons(p, a, b)) && OnlyIn(old(links), links, Pre(Cons(p, a, b)))
    {
      if last.Some? {
        AbsorbEnds(links, p, m, a, b);
        links := links[p := links[p].(list := links[p].next)];
        links := links[p := links[p].(next := links[last.value].next)];
        links := links[last.value := links[last.value].(next := None)];
        AbsorbLinks(old(links), links, p, par, m, a, b);
      }
    }

    /** The last loop over the children: an entry without a prompt gives up those below it. */
    method FlattenKids(p: Id, ghost k: Forest, ghost s: seq<Id>) returns (ghost k': Forest)
      requires p in links && p !in Pre(k) && Linked(links, links[p].list, Some(p), k) && Distinct(Pre(k))
      requires FlatBelow(orig, k) && Hung(V(), k, Some(p), s) && links.Keys == data.Keys && SamePrompts()
      modifies this`links
      ensures OnlyIn(old(links), links, Pre(k)) && Linked(links, links[p].list, Some(p), k') && Pre(k') == Pre(k)
      ensures Flat(orig, k') && Hung(V(), k', Some(p), s)
    {
      var m := links[p].list;
      ghost var first, a, b := m, Nil, k;
      while m.Some?
        invariant Pre(a) + Pre(b) == Pre(k) && OnlyIn(old(links), links, Pre(k))
        invariant Seg(links, first, Some(p), a, m) && Linked(links, m, Some(p), b)
        invariant Flat(orig, a) && FlatBelow(orig, b) && Hung(V(), a, Some(p), s) && Hung(V(), b, Some(p), s)
        decreases |Pre(b)|
      {
        ghost var b' := FlattenOne(m.value, p, first, k, a, b, s);
        FlattenStep(orig, a, b');
        HungTake(V(), a, b', Some(p), s);
        a, b := Take(a, b'), b'.rest;
        m := links[m.value].next;
      }
      k' := a;
    }

    method FlattenOne(m: Id, p: Id, ghost first: Ptr, ghost k: Forest, ghost a: Forest, ghost b: Forest,
                      ghost s: seq<Id>)
      returns (ghost b': Forest)
      requires Pre(a) + Pre(b) == Pre(k) && Distinct(Pre(k)) && FlatBelow(orig, b) && Hung(V(), b, Some(p), s)
      requires links.Keys == data.Keys && SamePrompts()
      requires Seg(links, first, Some(p), a, Some(m)) && Linked(links, Some(m), Some(p), b)
      modifies this`links
      ensures m in links && b'.Cons? && b'.id == m && Pre(b') == Pre(b) && OnlyIn(old(links), links, Pre(b))
      ensures Seg(links, first, Some(p), Take(a, b'), links[m].next) && Linked(links, links[m].next, Some(p), b'.rest)
      ensures FlatBelow(orig, b') && (b'.kids.Nil? || (m in orig && orig[m].prompt.Some?)) && Hung(V(), b', Some(p), s)
    {
      DistinctParts(Pre(a), Pre(b));
      LinkedParts(links, Some(m), Some(p), b);
      b' := b;
      if links[m].list.Some? && data[m].prompt.None? {
        Splice(m, p, b);
        SegKept(old(links), links, first, Some(p), a, Some(m), Pre(b));
        b' := Cons(m, Nil, Append(b.kids, b.rest));
        PreSplice(m, b.kids, b.rest);
        FlatAppend(orig, b.kids, b.rest);
        HungFlatten(V(), p, m, b, s);
      }
      LinkedParts(links, Some(m), Some(p), b');
      Boundary(links, first, Some(p), a, m, b');
    }

    /** An entry that has children from the start. */
    method Descend(p: Id, ghost par: Ptr, ghost f: Forest) returns (ghost f': Forest)
      requires Inv() && f.Cons? && f.id == p && Linked(links, Some(p), par, f) && Distinct(Pre(f)) && Ready(V(), f, par)
      requires Located(V(), Some(p), log, f.kids)
      modifies this
      ensures Inv() && f'.Cons? && f'.id == p && Linked(links, Some(p), par, f') && Pre(f') == Pre(f)
      ensures |Pre(f'.rest)| <= |Pre(f.rest)| && AllDone(V(), Pre(f'.kids)) && Ready(V(), f'.rest, par)
      ensures FlatBelow(orig, f'.kids) && Hung(V(), f'.kids, Some(p), Pre(f'.kids)) && p !in under
      ensures log == old(log) + Pre(f'.kids)
      ensures OnlyIn(old(links), links, Pre(f)) && Grown(old(V()), V(), Pre(f))
      ensures owed == old(owed)
      decreases |Pre(f)|, 0, 1, 0
    {
      hide Books;
      assert p !in Pre(f.kids) && Distinct(Pre(f.kids)) by { ForestParts(f); }
      ghost var u := V();
      ReadyFirst(u, f, par);
      PropagateKids(p, f.kids);
      ghost var v := V();
      LocatedKept(u, v, Some(p), log, f.kids);
      ghost var k := FinaliseKids(p, f.kids);
      DescendViews(u, v, V(), f, par);
      KidsReplaced(old(links), links, p, par, f, k);
      f' := Cons(p, k, f.rest);
    }

    ghost method Begin(p: Id)
      requires Inv() && p in done
      modifies this`log, this`owed
      ensures Inv() && log == old(log) + [p] && owed == old(owed) + [p]
    {
      BooksOpen(V(), L(), p);
      log, owed := log + [p], owed + [p];
    }

    ghost method End(p: Id, before: seq<Id>)
      requires Inv() && owed == before + [p] && Noted(V(), terms, dirs, p)
      modifies this`owed
      ensures Inv() && owed == before
    {
      BooksClose(V(), L(), before, p);
      owed := before;
    }

    /** `menu_finalize` */
    method Finalize(p: Id, ghost par: Ptr, ghost f: Forest) returns (ghost f': Forest)
      requires Inv() && f.Cons? && f.id == p && Linked(links, Some(p), par, f) && Distinct(Pre(f)) && Ready(V(), f, par)
      requires Located(V(), par, log, f)
      modifies this
      ensures Inv() && Finalised(old(links), links, old(V()), V(), old(log), log, par, p, f, f')
      ensures |Pre(f'.rest)| <= |Pre(f.rest)|
      ensures owed == old(owed)
      decreases |Pre(f)|, 0, 2
    {
      hide Books;
      ReadyFirst(V(), f, par);
      Begin(p);
      ghost var g := Gather(p, par, old(log), f);
      ghost var h := links;
      f' := Settle(p, par, g);
      End(p, old(owed));
      OnlyInTrans(old(links), h, links, Pre(f), Pre(f), Pre(f));
    }

    /** All that an entry leaves behind before its children are flattened. */
    ghost predicate Left(p: Id)
      reads this
    {
      NotedDirect(V(), dirs, p) && (data[p].sym.Some? && Childless(V(), p) ==> p in stop)
    }

    /** Finalise what is below the entry, or what moves there. */
    method Gather(p: Id, ghost par: Ptr, ghost before: seq<Id>, ghost f: Forest) returns (ghost g: Forest)
      requires Inv() && f.Cons? && f.id == p && Linked(links, Some(p), par, f) && Distinct(Pre(f)) && Ready(V(), f, par)
      requires Located(V(), par, before, f) && log == before + [p]
      modifies this
      ensures Inv() && g.Cons? && g.id == p && Linked(links, Some(p), par, g) && Pre(g) == Pre(f)
      ensures |Pre(g.rest)| <= |Pre(f.rest)| && AllDone(V(), Pre(g.kids)) && Ready(V(), g.rest, par)
      ensures FlatBelow(orig, g.kids) && Hung(V(), g.kids, Some(p), Pre(g.kids)) && p !in under
      ensures log == old(log) + Pre(g.kids)
      ensures OnlyIn(old(links), links, Pre(f)) && Grown(old(V()), V(), Pre(f))
      ensures owed == old(owed) && p in data && Left(p)
      decreases |Pre(f)|, 0, 1, 2
    {
      hide Books;
      EntryKnown(p);
      LinkedParts(links, Some(p), par, f);
      ReadyFirst(V(), f, par);
      var e := data[p];
      if links[p].list.Some? {
        LocatedKids(V(), par, before, f);
        NotChildless(V(), f, par, before);
        g := Descend(p, par, f);
        ChildlessKept(old(V()), V(), p);
      } else if e.sym.Some? {
        LocatedRest(V(), par, before, f);
        g := Collect(p, e.sym.value, par, before, f);
      } else {
        g := f;
      }
    }

    /** The branch for an entry of a symbol that has no children. */
    method Collect(p: Id, sym: Symbol, ghost par: Ptr, ghost before: seq<Id>, ghost f: Forest) returns (ghost g: Forest)
      requires Inv() && f.Cons? && f.id == p && f.kids.Nil? && Linked(links, Some(p), par, f) && Distinct(Pre(f))
      requires Ready(V(), f, par) && p in data && data[p].sym == Some(sym)
      requires Located(V(), par, before, f) && Located(V(), par, log, f.rest)
      modifies this
      ensures Inv() && g.Cons? && g.id == p && Linked(links, Some(p), par, g) && Pre(g) == Pre(f)
      ensures |Pre(g.rest)| <= |Pre(f.rest)| && AllDone(V(), Pre(g.kids)) && Ready(V(), g.rest, par)
      ensures FlatBelow(orig, g.kids) && Hung(V(), g.kids, Some(p), Pre(g.kids)) && p !in under
      ensures log == old(log) + Pre(g.kids)
      ensures OnlyIn(old(links), links, Pre(f)) && Grown(old(V()), V(), Pre(f))
      ensures owed == old(owed) && p in data && Left(p)
      decreases |Pre(f)|, 0, 1, 1
    {
      hide Books, Hung, Located, Halted, OnlyIn, Linked, Flat, FlatBelow, AllDone;
      EntryKnown(p);
      ReadyFirst(V(), f, par);
      NoChildren(V(), p);
      OrderKnown();
      ParentOther(V(), par, before, f);
      g := Absorb(p, sym, par, f);
      ghost var w := V();
      LocatedSame(old(V()), w, par, before, f, g);
      Leave(p, sym, par, before, g);
      HaltViews(old(V()), w, V(), par, Pre(f), g);
    }

    /** What such an entry leaves behind. */
    method Leave(p: Id, sym: Symbol, ghost par: Ptr, ghost before: seq<Id>, ghost g: Forest)
      requires Inv() && g.Cons? && g.id == p && p in done && p in data && data[p].sym == Some(sym) && p in up
      requires p !in stop
      requires UpIs(V(), p, par) && Located(V(), par, before, g) && Hung(V(), g.kids, Some(p), Pre(g.kids))
      requires g.rest.Cons? ==> Halted(V(), p, g.rest.id)
      modifies this`dir, this`dirs, this`stop
      ensures Inv() && Left(p) && stop == old(stop)[p := if g.rest.Nil? then None else Some(g.rest.id)]
    {
      hide Books, Hung, Located, Halted;
      AddDirect(p, sym);
      ghost var w := V();
      Halt(p, par, before, g);
      ChildlessKept(w, V(), p);
    }

    /** The end of `menu_finalize`: dissolve promptless menus, and let a choice be chosen where it shows. */
    method Settle(p: Id, ghost par: Ptr, ghost f: Forest) returns (ghost f': Forest)
      requires Inv() && f.Cons? && f.id == p && Linked(links, Some(p), par, f) && Distinct(Pre(f))
      requires FlatBelow(orig, f.kids)
      requires p in data && p in done && Hung(V(), f.kids, Some(p), Pre(f.kids)) && Left(p)
      modifies this`links, this`rev, this`terms
      ensures Inv() && f'.Cons? && f'.id == p && Linked(links, Some(p), par, f') && Pre(f') == Pre(f)
      ensures Pre(f'.kids) == Pre(f.kids) && f'.rest == f.rest && Flat(orig, f'.kids)
      ensures OnlyIn(old(links), links, Pre(f))
      ensures Hung(V(), f'.kids, Some(p), Pre(f'.kids)) && Noted(V(), terms, dirs, p)
      ensures Proper(data[p]) && terms == if Chooses(data[p]) then old(terms) + [ChoosingTerm(data[p])] else old(terms)
    {
      hide Books;
      AllKnown();
      assert f.id !in Pre(f.kids) && Distinct(Pre(f.kids)) by { ForestParts(f); }
      ghost var k := FlattenKids(p, f.kids, Pre(f.kids));
      KidsReplaced(old(links), links, p, par, f, k);
      f' := Cons(p, k, f.rest);
      var e := data[p];
      if e.sym.Some? && !e.optional && e.prompt.Some? {
        AllowChoosing(p);
      }
    }

    /** A choice that is not optional can be raised to `m` wherever its prompt shows. */
    method AllowChoosing(p: Id)
      requires Inv() && p in done && p in data && Proper(data[p]) && Chooses(data[p])
      modifies this`rev, this`terms
      ensures Inv() && terms == old(terms) + [ChoosingTerm(data[p])]
    {
      hide Books;
      var e := data[p];
      BooksChoosing(V(), L(), p);
      RevKnown();
      AddReverse(Term(e.sym.value, AllocAnd(PromptDep(e), Some(Sym(ModSym))).value));
    }

    lemma RevKnown()
      requires Inv()
      ensures rev == Accumulate(terms) && dir == Accumulate(dirs)
    {
    }

    lemma OrderKnown()
      requires Inv()
      ensures Distinct(order)
    {
    }
  }

  /* ---------- what the finished tree guarantees ---------- */

  /** An entry can be met only where the entry it was written under lets it. */
  lemma ShownWithinParent(v: View, root: Id, terms: seq<Term>, i: Id, val: Valuation)
    requires Sound(v, root, terms) && i in v.done && i != root && WellFormed(val)
    ensures i in v.up && v.up[i] in v.done
    ensures EvalOpt(OwnDep(v.data[i]), val) != No ==> EvalOpt(ParentDep(v.data[v.up[i]]), val) != No
  {
    assert Inherited(v, root, i);
    var a, b := v.orig[i], v.data[i];
    var base := ParentDep(v.data[v.up[i]]);
    assert Refines(AndT(EvalOpt(base, val), EvalOpt(a.dep, val)), EvalOpt(b.dep, val));
    if b.prompt.Some? {
      var j := b.prompt.value;
      assert PropInherits(b.dep, a.props[j], b.props[j], PromotesM(a));
    }
  }

  /** What an entry looks at: its prompt, or its dependency without one. */
  lemma EntryParts(e: Entry)
    requires Proper(e)
    ensures e.prompt.Some? ==> OwnDep(e) == PromptDep(e) == e.props[e.prompt.value].visible
    ensures e.prompt.None? ==> OwnDep(e) == e.dep && PromptDep(e) == None
  {
  }

  /** What the entry above lets through: the choice being set, or its prompt, or its dependency. */
  function LetsThrough(e: Entry, val: Valuation): Tristate
    requires e.isChoice ==> e.sym.Some?
    requires e.prompt.Some? ==> e.prompt.value < |e.props|
  {
    if e.isChoice then val.tri(e.sym.value)
    else if e.prompt.Some? then EvalOpt(e.props[e.prompt.value].visible, val)
    else EvalOpt(e.dep, val)
  }

  /** Every finished entry depends on what it said itself and on what the entry it was written under lets through, and
      each of its properties on that and its own condition: so wherever this is not `m`, and for a symbol that is not
      tristate after `m` has been taken for `y`. Of the properties nothing but the condition has changed; no tristate is
      compared with `!= n` in those of such a symbol, and nothing is left to eliminate in those of others. */
  lemma InheritedValue(v: View, root: Id, terms: seq<Term>, i: Id, j: nat, val: Valuation)
    requires Sound(v, root, terms) && i in v.done && i != root && WellFormed(val) && j < |v.data[i].props|
    ensures i in v.up && v.up[i] in v.data && Proper(v.data[v.up[i]])
    ensures i in v.orig && |v.data[i].props| == |v.orig[i].props|
    ensures Refines(AndT(LetsThrough(v.data[v.up[i]], val), EvalOpt(v.orig[i].dep, val)), EvalOpt(v.data[i].dep, val))
    ensures var p, q := v.orig[i].props[j], v.data[i].props[j];
            var both, got := AndT(EvalOpt(v.data[i].dep, val), EvalOpt(p.visible, val)), EvalOpt(q.visible, val);
            && q == p.(visible := q.visible)
            && (if v.data[i].sym.Some? && v.data[i].sym.value.stype() != TristateType
                then (both != Mod ==> Promote(got) == both) && NoNonzeroOpt(q.visible)
                else Refines(both, got) && FixedOpt(q.visible))
  {
    assert Inherited(v, root, i);
    var a, b := v.orig[i], v.data[i];
    assert PropInherits(b.dep, a.props[j], b.props[j], PromotesM(a));
  }

  /** An absorbed entry can be met only where the symbol above it or that symbol's prompt can, at exactly the
      valuations where one of the two is met or its dependency does not owe its value to a negated `m`. */
  lemma AbsorbedShown(v: View, l: Ledger, i: Id, val: Valuation)
    requires Books(v, l) && i in v.under && WellFormed(val)
    ensures AbsorbedBy(v, i, v.under[i])
    ensures var p := v.under[i];
            var sym, prompt, dep := v.data[p].sym.value, PromptDep(v.data[p]), OwnDep(v.data[i]);
            HasTruth(sym) && TypedOpt(prompt) && TypedOpt(dep) ==>
              && ((EvalOpt(dep, val) != No ==> val.tri(sym) != No || EvalOpt(prompt, val) != No) <==>
                    val.tri(sym) != No || EvalOpt(prompt, val) != No || EvalOpt(dep, val) == FirmOpt(dep, val))
              && (EvalOpt(dep, val) != FirmOpt(dep, val) ==> EvalOpt(dep, val) == Mod && SomeNegatedM(dep, val))
  {
    var p := v.under[i];
    assert AbsorbedBy(v, i, p);
    assert Inherited(v, l.root, p) && Inherited(v, l.root, i);
    var sym, prompt, dep := v.data[p].sym.value, PromptDep(v.data[p]), OwnDep(v.data[i]);
    PassedBelow(sym, prompt, dep);
    if HasTruth(sym) && TypedOpt(prompt) && TypedOpt(dep) { BelowExact(sym, prompt, dep, val); }
  }

  /** `c` leads from an entry through the entries it was written under, none of them a choice. */
  ghost predicate UpChain(v: View, root: Id, c: seq<Id>) {
    && |c| >= 1
    && (forall n :: 0 <= n < |c| ==> c[n] in v.done && c[n] in v.data)
    && (forall n :: 0 <= n < |c| - 1 ==> UpStep(v, root, c[n], c[n + 1]))
  }

  ghost predicate UpStep(v: View, root: Id, i: Id, p: Id) {
    i != root && i in v.up && v.up[i] == p && p in v.data && !v.data[p].isChoice
  }

  lemma {:induction false} ShownWithinAll(v: View, root: Id, terms: seq<Term>, c: seq<Id>, n: nat, val: Valuation)
    requires Sound(v, root, terms) && UpChain(v, root, c) && n < |c| && WellFormed(val)
    ensures EvalOpt(OwnDep(v.data[c[0]]), val) != No ==> EvalOpt(OwnDep(v.data[c[n]]), val) != No
  {
    if n > 0 {
      ShownWithinAll(v, root, terms, c, n - 1, val);
      assert UpStep(v, root, c[n - 1], c[n - 1 + 1]);
      ShownWithinParent(v, root, terms, c[n - 1], val);
    }
  }

  /** After finalisation and calculation a selected symbol is at least the minimum of its selector
      and the condition of the select. */
  lemma SelectsHonoured(v: View, root: Id, terms: seq<Term>, i: Id, j: nat, u: Setup, vals: Values)
    requires Sound(v, root, terms) && i in v.done && i != root && v.data[i].sym.Some?
    requires j < |v.data[i].props| && v.data[i].props[j].Select?
    requires var s := v.data[i].props[j].target;
             Solves(u, vals) && s in u.tab && HasTruth(s) && u.tab[s].revDep == RevDepOf(Accumulate(terms), s)
    ensures var p := v.data[i].props[j];
            vals(p.target).tri >= AndT(vals(v.data[i].sym.value).tri, EvalOpt(p.visible, Reading(vals, u.modules)))
  {
    var p, x := v.data[i].props[j], v.data[i].sym.value;
    assert Recorded(v, root, terms, i);
    var t := SelectTerm(x, p);
    TermsHonoured(u, vals, p.target, terms);
    var r := Reading(vals, u.modules);
    assert Eval(Sym(x), r) == vals(x).tri;
    assert Eval(t.cond, r) == AndT(vals(x).tri, EvalOpt(p.visible, r));
  }
}
