/** The entries of the menu, what `menu_finalize` makes of them, and what is known at every moment about how
    far it has come. */
module MenuBooks {
  import opened Options
  import opened Exprs
  import opened Compare
  import opened Absorption
  import opened SymbolTable
  import opened SymbolTheorems
  import opened MenuTree

  /** What an entry carries besides its links. `prompt` is the index of its prompt among the
      properties that belong to this entry. */
  datatype Entry = Entry(sym: Option<Symbol>, isChoice: bool, optional: bool,
                         dep: Option<Expr>, prompt: Option<nat>, props: seq<Property>)

  predicate Proper(e: Entry) {
    && (e.prompt.Some? ==> e.prompt.value < |e.props|)
    && (e.isChoice ==> e.sym.Some?)
    && (forall i :: 0 <= i < |e.props| && e.props[i].Select? ==> e.sym.Some?)
  }

  function PromptDep(e: Entry): Option<Expr>
    requires Proper(e)
  {
    if e.prompt.Some? then e.props[e.prompt.value].visible else None
  }

  /** What an entry hands down to those below it. */
  function ParentDep(e: Entry): Option<Expr>
    requires Proper(e)
  {
    if e.isChoice then Some(Sym(e.sym.value)) else if e.prompt.Some? then PromptDep(e) else e.dep
  }

  /** What the absorption test looks at. */
  function OwnDep(e: Entry): Option<Expr>
    requires Proper(e)
  {
    if e.prompt.Some? then PromptDep(e) else e.dep
  }

  predicate PromotesM(e: Entry) {
    e.sym.Some? && e.sym.value.stype() != TristateType
  }

  ghost predicate SimpleProps(props: seq<Property>) {
    forall i :: 0 <= i < |props| ==> SimpleOpt(props[i].visible)
  }

  ghost predicate PropInherits(dep: Option<Expr>, p: Property, q: Property, transBool: bool) {
    && q == p.(visible := q.visible) && Combined(dep, p.visible, transBool, q.visible)
    && (p.visible.None? ==> Keeps(dep, q.visible))
    && (if transBool then NoNonzeroOpt(q.visible) else FixedOpt(q.visible))
  }

  ghost predicate PropsInherit(dep: Option<Expr>, a: seq<Property>, b: seq<Property>, transBool: bool) {
    |b| <= |a| && forall i :: 0 <= i < |b| ==> PropInherits(dep, a[i], b[i], transBool)
  }

  /** `b` is `a` once the dependency `base` has come down to it and on to its properties. */
  ghost predicate Inherits(base: Option<Expr>, a: Entry, b: Entry) {
    && b == a.(dep := b.dep, props := b.props) && |b.props| == |a.props|
    && Combined(base, a.dep, false, b.dep)
    && PropsInherit(b.dep, a.props, b.props, PromotesM(a))
  }

  /** The alternative a `select` contributes to its target. */
  function SelectTerm(selector: Symbol, p: Property): Term
    requires p.Select?
  {
    Term(p.target, AllocAnd(Some(Sym(selector)), p.visible).value)
  }

  /** A choice that cannot be left unset may be raised to `m` wherever its prompt shows. */
  predicate Chooses(e: Entry) {
    e.sym.Some? && !e.optional && e.prompt.Some?
  }

  function ChoosingTerm(e: Entry): Term
    requires Proper(e) && Chooses(e)
  {
    Term(e.sym.value, AllocAnd(PromptDep(e), Some(Sym(ModSym))).value)
  }

  /* ---------- how far the work has come ---------- */

  /** `orig`, `up` and `order` describe the tree as parsed. `done` are the entries that have inherited, `under`
      says which entry took in which of its siblings, and `stop` which sibling an entry did not take in. */
  datatype View = View(orig: map<Id, Entry>, up: map<Id, Id>, order: seq<Id>, data: map<Id, Entry>, done: set<Id>,
                       under: map<Id, Id>, stop: map<Id, Ptr>)

  /** The entry was written under `par`. */
  predicate UpIs(v: View, i: Id, par: Ptr) {
    if par.None? then i !in v.up else i in v.up && v.up[i] == par.value
  }

  predicate SameUp(v: View, i: Id, p: Id) {
    i in v.up && p in v.up && v.up[i] == v.up[p]
  }

  /** All that was written under `i` is in `k`. */
  ghost predicate KidsIn(v: View, i: Id, k: Forest) {
    forall x :: x in v.order && UpIs(v, x, Some(i)) ==> x in Pre(k)
  }

  /** Neither taken in nor finished. */
  predicate Loose(v: View, i: Id) {
    i !in v.under && i !in v.stop
  }

  /** Nothing in `f` has been touched. */
  ghost predicate Fresh(v: View, f: Forest, p: Id)
    decreases f
  {
    match f
    case Nil => true
    case Cons(i, k, r) =>
      && i in v.data && i in v.orig && v.data[i] == v.orig[i] && i !in v.done && i in v.up && v.up[i] == p
      && Loose(v, i) && KidsIn(v, i, k) && Fresh(v, k, i) && Fresh(v, r, p)
  }

  /** The siblings have inherited, what is below them has not. */
  ghost predicate Ready(v: View, f: Forest, par: Ptr)
    decreases f
  {
    match f
    case Nil => true
    case Cons(i, k, r) =>
      i in v.done && UpIs(v, i, par) && Loose(v, i) && KidsIn(v, i, k) && Fresh(v, k, i) && Ready(v, r, par)
  }

  ghost predicate AllDone(v: View, s: seq<Id>) {
    forall i :: i in s ==> i in v.done
  }

  /** Nothing is taken back, and only entries in `s` are added. */
  ghost predicate Extended<T>(a: map<Id, T>, b: map<Id, T>, s: seq<Id>) {
    && (forall i :: i in a ==> i in b && b[i] == a[i])
    && (forall i :: i in b ==> i in a || i in s)
  }

  ghost predicate SameTree(v: View, w: View) {
    w.orig == v.orig && w.up == v.up && w.order == v.order
  }

  /** Only entries in `s` that had not inherited have changed, and they have inherited now. */
  ghost predicate Grown(v: View, w: View, s: seq<Id>) {
    && SameTree(v, w) && w.data.Keys == v.data.Keys && v.done <= w.done
    && (forall i :: i in w.done ==> i in v.done || i in s)
    && (forall i :: i in v.data && (i !in s || i in v.done) ==> w.data[i] == v.data[i])
    && Extended(v.under, w.under, s) && Extended(v.stop, w.stop, s)
  }

  lemma GrownTrans(u: View, v: View, w: View, s: seq<Id>, t: seq<Id>, all: seq<Id>)
    requires Grown(u, v, s) && Grown(v, w, t) && Covers(all, s) && Covers(all, t)
    ensures Grown(u, w, all)
  {
  }

  lemma {:induction false} FreshKept(v: View, w: View, f: Forest, p: Id, s: seq<Id>)
    requires Fresh(v, f, p) && Grown(v, w, s) && Apart(Pre(f), s)
    ensures Fresh(w, f, p)
    decreases f
  {
    if f.Cons? {
      FreshKept(v, w, f.kids, f.id, s);
      FreshKept(v, w, f.rest, p, s);
      KidsKept(v, w, f.id, f.kids);
    }
  }

  lemma KidsKept(v: View, w: View, i: Id, k: Forest)
    requires KidsIn(v, i, k) && SameTree(v, w)
    ensures KidsIn(w, i, k)
  {
  }

  lemma {:induction false} ReadyKept(v: View, w: View, f: Forest, par: Ptr, s: seq<Id>)
    requires Ready(v, f, par) && Grown(v, w, s) && Apart(Pre(f), s)
    ensures Ready(w, f, par)
    decreases f
  {
    if f.Cons? {
      FreshKept(v, w, f.kids, f.id, s);
      ReadyKept(v, w, f.rest, par, s);
      KidsKept(v, w, f.id, f.kids);
    }
  }

  lemma {:induction false} ReadyAppend(v: View, f: Forest, g: Forest, par: Ptr)
    requires Ready(v, f, par) && Ready(v, g, par)
    ensures Ready(v, Append(f, g), par)
    decreases f
  {
    if f.Cons? { ReadyAppend(v, f.rest, g, par); }
  }

  /** The first fresh sibling has inherited. */
  lemma PropagateStep(u: View, v: View, w: View, p: Id, a: Forest, b: Forest)
    requires Ready(v, a, Some(p)) && b.Cons? && Fresh(v, b, p) && Distinct(Pre(a) + Pre(b))
    requires Grown(u, v, Pre(a)) && Grown(v, w, [b.id]) && b.id in w.done && w.under == v.under && w.stop == v.stop
    ensures Ready(w, Take(a, b), Some(p)) && Fresh(w, b.rest, p) && Grown(u, w, Pre(Take(a, b)))
  {
    DistinctParts(Pre(a), Pre(b));
    ForestParts(b);
    ReadyKept(v, w, a, Some(p), [b.id]);
    FreshKept(v, w, b.rest, p, [b.id]);
    FreshKept(v, w, b.kids, b.id, [b.id]);
    KidsKept(v, w, b.id, b.kids);
    ReadyAppend(w, a, Cons(b.id, b.kids, Nil), Some(p));
    TakeShape(a, b);
    GrownTrans(u, v, w, Pre(a), [b.id], Pre(Take(a, b)));
  }

  lemma ReadyFirst(v: View, f: Forest, par: Ptr)
    requires Ready(v, f, par) && f.Cons?
    ensures f.id in v.done && UpIs(v, f.id, par) && Loose(v, f.id) && KidsIn(v, f.id, f.kids) && Ready(v, f.rest, par)
    ensures Fresh(v, f.kids, f.id)
  {
  }

  /** Every done entry inherits from its original parent, which is done as well. */
  ghost predicate Inherited(v: View, root: Id, i: Id) {
    && i in v.data && Proper(v.data[i]) && SimpleOpt(v.data[i].dep) && SimpleProps(v.data[i].props)
    && (i != root ==>
          && i in v.up && v.up[i] in v.done && v.up[i] in v.data && Proper(v.data[v.up[i]])
          && i in v.orig && Inherits(ParentDep(v.data[v.up[i]]), v.orig[i], v.data[i]))
  }

  ghost predicate SelectsIn(sym: Option<Symbol>, props: seq<Property>, terms: seq<Term>) {
    sym.Some? ==> forall j :: 0 <= j < |props| && props[j].Select? ==> SelectTerm(sym.value, props[j]) in terms
  }

  ghost predicate Extends(a: seq<Term>, b: seq<Term>) {
    forall t :: t in a ==> t in b
  }

  /** Every `select` of a done entry has reached its target. */
  ghost predicate Recorded(v: View, root: Id, terms: seq<Term>, i: Id) {
    i in v.data && i != root ==> SelectsIn(v.data[i].sym, v.data[i].props, terms)
  }

  ghost predicate Sound(v: View, root: Id, terms: seq<Term>) {
    && root in v.done && v.done <= v.data.Keys && v.data.Keys == v.orig.Keys
    && root in v.orig && v.orig[root].sym.None? && root !in v.up
    && (forall i :: i in v.data ==>
          Proper(v.data[i]) && v.data[i].prompt == v.orig[i].prompt && v.data[i].sym == v.orig[i].sym)
    && (forall i {:trigger Inherited(v, root, i)} :: i in v.done ==> Inherited(v, root, i))
    && (forall i {:trigger Recorded(v, root, terms, i)} :: i in v.done ==> Recorded(v, root, terms, i))
  }

  /** One more entry has inherited. */
  lemma SoundStep(v: View, w: View, root: Id, terms: seq<Term>, terms': seq<Term>, i: Id, p: Id, e: Entry)
    requires Sound(v, root, terms) && i in v.data && i !in v.done && i in v.up && v.up[i] == p && p in v.done
    requires w == v.(data := v.data[i := e], done := v.done + {i})
    requires v.data[i] == v.orig[i] && Inherits(ParentDep(v.data[p]), v.orig[i], e)
    requires SimpleOpt(e.dep) && SimpleProps(e.props)
    requires Extends(terms, terms') && Recorded(w, root, terms', i)
    ensures Sound(w, root, terms') && Grown(v, w, [i])
  {
    forall x | x in w.done ensures Inherited(w, root, x) && Recorded(w, root, terms', x) {
      if x != i {
        assert Inherited(v, root, x) && Recorded(v, root, terms, x);
      }
    }
  }

  lemma SoundMore(v: View, root: Id, terms: seq<Term>, t: Term)
    requires Sound(v, root, terms)
    ensures Sound(v, root, terms + [t])
  {
    forall x | x in v.done ensures Recorded(v, root, terms + [t], x) {
      assert Recorded(v, root, terms, x);
    }
  }

  lemma SoundKept(v: View, w: View, root: Id, terms: seq<Term>)
    requires Sound(v, root, terms) && w == v.(under := w.under, stop := w.stop)
    ensures Sound(w, root, terms)
  {
    forall x | x in w.done ensures Inherited(w, root, x) && Recorded(w, root, terms, x) {
      assert Inherited(v, root, x) && Recorded(v, root, terms, x);
    }
  }

  /* ---------- where reverse and direct dependencies come from ---------- */

  ghost predicate FromSelect(sym: Option<Symbol>, props: seq<Property>, t: Term) {
    sym.Some? && exists j :: 0 <= j < |props| && props[j].Select? && t == SelectTerm(sym.value, props[j])
  }

  /** The alternative for a reverse dependency comes from a select of the entry, or from its being a choice
      that cannot be left unset. */
  ghost predicate ReverseOf(v: View, i: Id, t: Term) {
    && i in v.done && i in v.data && Proper(v.data[i])
    && (FromSelect(v.data[i].sym, v.data[i].props, t) || (Chooses(v.data[i]) && t == ChoosingTerm(v.data[i])))
  }

  ghost predicate Reverse(v: View, terms: seq<Term>) {
    forall t :: t in terms ==> exists i :: ReverseOf(v, i, t)
  }

  /** The alternative for a direct dependency is that of an entry of the symbol. */
  ghost predicate DirectOf(v: View, root: Id, i: Id, t: Term) {
    i in v.done && i != root && i in v.data && v.data[i].sym == Some(t.target) && v.data[i].dep == Some(t.cond)
  }

  ghost predicate Direct(v: View, root: Id, dirs: seq<Term>) {
    forall t :: t in dirs ==> exists i :: DirectOf(v, root, i, t)
  }

  /** Nothing was written below it. */
  ghost predicate Childless(v: View, i: Id) {
    forall j :: j in v.order && j in v.up ==> v.up[j] != i
  }

  lemma ChildlessKept(v: View, w: View, i: Id)
    requires SameTree(v, w)
    ensures Childless(w, i) == Childless(v, i)
  {
  }

  lemma NoChildren(v: View, i: Id)
    requires KidsIn(v, i, Nil)
    ensures Childless(v, i)
  {
  }

  /** The dependency of the entry is among the alternatives for its symbol. */
  ghost predicate NotedDirect(v: View, dirs: seq<Term>, i: Id) {
    && i in v.done && i in v.data
    && (v.data[i].sym.Some? && v.data[i].dep.Some? && Childless(v, i) ==>
          Term(v.data[i].sym.value, v.data[i].dep.value) in dirs)
  }

  /** A finalised entry has left all its traces: both kinds of alternatives, and the sibling it stopped at. */
  ghost predicate Noted(v: View, terms: seq<Term>, dirs: seq<Term>, i: Id) {
    && NotedDirect(v, dirs, i) && Proper(v.data[i])
    && (Chooses(v.data[i]) ==> ChoosingTerm(v.data[i]) in terms)
    && (v.data[i].sym.Some? && Childless(v, i) ==> i in v.stop)
  }

  lemma NotedKept(v: View, w: View, terms: seq<Term>, terms': seq<Term>, dirs: seq<Term>, dirs': seq<Term>,
                  i: Id, s: seq<Id>)
    requires Noted(v, terms, dirs, i) && Grown(v, w, s) && Extends(terms, terms') && Extends(dirs, dirs')
    ensures Noted(w, terms', dirs', i)
  {
    assert w.data[i] == v.data[i];
    ChildlessKept(v, w, i);
  }

  /* ---------- which entries were taken in, and where that ended ---------- */

  /** The sibling `i` passed the test after `p`, which had no children of its own. */
  ghost predicate AbsorbedBy(v: View, i: Id, p: Id) {
    && i in v.done && p in v.done && i in v.data && p in v.data && Proper(v.data[i]) && Proper(v.data[p])
    && SameUp(v, i, p) && Childless(v, p) && v.data[p].sym.Some?
    && Passed(v.data[p].sym.value, PromptDep(v.data[p]), OwnDep(v.data[i]))
  }

  /** From place `lo` to `hi` of the order stand `p` and what it took in: every sibling among them is under one
      of them. */
  ghost predicate Ran(v: View, p: Id, lo: nat, hi: nat) {
    && lo < hi <= |v.order| && v.order[lo] == p
    && forall n :: lo < n < hi && SameUp(v, v.order[n], p) ==>
         v.order[n] in v.under && v.under[v.order[n]] in v.order[lo..hi]
  }

  /** The next sibling did not pass the test. */
  ghost predicate Halted(v: View, p: Id, q: Id) {
    && q in v.done && q in v.data && Proper(v.data[q]) && p in v.data && Proper(v.data[p]) && v.data[p].sym.Some?
    && SameUp(v, q, p) && Refused(v.data[p].sym.value, PromptDep(v.data[p]), OwnDep(v.data[q]))
  }

  /** The entry stopped taking in siblings at the end of them or at one that did not pass. */
  ghost predicate StopAt(v: View, p: Id, lo: nat, hi: nat) {
    && p in v.done && p in v.stop && Ran(v, p, lo, hi)
    && match v.stop[p]
       case None => hi == |v.order|
       case Some(q) => hi < |v.order| && v.order[hi] == q && Halted(v, p, q)
  }

  ghost predicate Placements(v: View) {
    && (forall i {:trigger i in v.under} :: i in v.under ==> AbsorbedBy(v, i, v.under[i]))
    && (forall p {:trigger p in v.stop} :: p in v.stop ==> exists lo, hi :: StopAt(v, p, lo, hi))
  }

  lemma StopKept(v: View, w: View, p: Id, lo: nat, hi: nat, s: seq<Id>)
    requires StopAt(v, p, lo, hi) && Grown(v, w, s)
    ensures StopAt(w, p, lo, hi)
  {
  }

  lemma AbsorbedKept(v: View, w: View, i: Id, p: Id, s: seq<Id>)
    requires AbsorbedBy(v, i, p) && Grown(v, w, s)
    ensures AbsorbedBy(w, i, p)
  {
    ChildlessKept(v, w, p);
  }

  lemma AbsorbedMore(v: View, w: View, m: Id, p: Id)
    requires AbsorbedBy(v, m, p) && m !in v.under && w == v.(under := v.under[m := p])
    ensures AbsorbedBy(w, m, p) && Grown(v, w, [m])
  {
    ChildlessKept(v, w, p);
  }

  lemma StopMore(v: View, w: View, p: Id, lo: nat, hi: nat)
    requires p in v.done && Ran(v, p, lo, hi) && p !in v.stop && p in w.stop && w == v.(stop := v.stop[p := w.stop[p]])
    requires match w.stop[p]
             case None => hi == |v.order|
             case Some(q) => hi < |v.order| && v.order[hi] == q && Halted(v, p, q)
    ensures StopAt(w, p, lo, hi) && Grown(v, w, [p])
  {
  }

  lemma PlacementsKept(v: View, w: View, s: seq<Id>)
    requires Placements(v) && Grown(v, w, s)
    requires forall i :: i in w.under && i !in v.under ==> AbsorbedBy(w, i, w.under[i])
    requires forall p :: p in w.stop && p !in v.stop ==> exists lo, hi :: StopAt(w, p, lo, hi)
    ensures Placements(w)
  {
    forall i | i in w.under ensures AbsorbedBy(w, i, w.under[i]) {
      if i in v.under { AbsorbedKept(v, w, i, v.under[i], s); }
    }
    forall p | p in w.stop ensures exists lo, hi :: StopAt(w, p, lo, hi) {
      if p in v.stop {
        var lo, hi :| StopAt(v, p, lo, hi);
        StopKept(v, w, p, lo, hi, s);
      }
    }
  }

  /* ---------- the symbols that occur ---------- */

  predicate PropScoped(p: Property, table: set<Symbol>) {
    && SymbolsOpt(p.visible) <= table
    && (p.Default? ==> Symbols(p.value) <= table)
    && (p.Select? ==> p.target in table && !IsTriConstant(p.target))
  }

  ghost predicate PropsScoped(props: seq<Property>, table: set<Symbol>) {
    forall j :: 0 <= j < |props| ==> PropScoped(props[j], table)
  }

  ghost predicate EntryScoped(e: Entry, table: set<Symbol>) {
    && SymbolsOpt(e.dep) <= table && PropsScoped(e.props, table)
    && (e.sym.Some? ==> e.sym.value in table && !IsTriConstant(e.sym.value))
  }

  ghost predicate TermsScoped(terms: seq<Term>, table: set<Symbol>) {
    forall t :: t in terms ==> t.target in table && !IsTriConstant(t.target) && Symbols(t.cond) <= table
  }

  /** All that occurs, the three constants included, is in the symbol table, and no constant is defined
      or selected. */
  ghost predicate Scoped(table: set<Symbol>, data: map<Id, Entry>, terms: seq<Term>, dirs: seq<Term>) {
    && WithConstants({}) <= table && TermsScoped(terms, table) && TermsScoped(dirs, table)
    && (forall i :: i in data ==> EntryScoped(data[i], table))
  }

  /* ---------- the books ---------- */

  /** What the entries have contributed: `rev_dep` and `dir_dep` of all symbols with the terms they were made of,
      the entries in the order they were finalised, and those still being finalised. */
  datatype Ledger = Ledger(root: Id, table: set<Symbol>, terms: seq<Term>, rev: map<Symbol, Expr>,
                           dirs: seq<Term>, dir: map<Symbol, Expr>, log: seq<Id>, owed: seq<Id>)

  /** Every finalised entry is noted, but for those still being finalised. */
  ghost predicate Logged(v: View, l: Ledger) {
    && (forall i {:trigger Noted(v, l.terms, l.dirs, i)} :: i in l.log ==> i in l.owed || Noted(v, l.terms, l.dirs, i))
    && (forall i :: i in l.log ==> i in v.done)
  }

  /** Everything that is true of the entries and of what they have contributed, links apart. */
  ghost predicate Books(v: View, l: Ledger) {
    && Sound(v, l.root, l.terms) && l.rev == Accumulate(l.terms) && l.dir == Accumulate(l.dirs)
    && Reverse(v, l.terms) && Direct(v, l.root, l.dirs) && Logged(v, l)
    && Scoped(l.table, v.data, l.terms, l.dirs) && Placements(v) && Distinct(v.order)
  }

  /** Before anything has been done. */
  lemma ParsedBooks(v: View, l: Ledger)
    requires l == Ledger(l.root, l.table, [], map[], [], map[], [], []) && Distinct(v.order)
    requires v == View(v.orig, v.up, v.order, v.orig, {l.root}, map[], map[])
    requires l.root in v.orig && v.orig[l.root].sym.None? && l.root !in v.up && Scoped(l.table, v.orig, [], [])
    requires SimpleOpt(v.orig[l.root].dep) && SimpleProps(v.orig[l.root].props)
    requires forall i :: i in v.orig ==> Proper(v.orig[i])
    ensures Books(v, l)
  {
    assert Inherited(v, l.root, l.root) && Recorded(v, l.root, [], l.root);
  }

  lemma ContributionsKept(v: View, w: View, l: Ledger, s: seq<Id>)
    requires Reverse(v, l.terms) && Direct(v, l.root, l.dirs) && Logged(v, l) && Grown(v, w, s) && v.done <= v.data.Keys
    ensures Reverse(w, l.terms) && Direct(w, l.root, l.dirs) && Logged(w, l)
  {
    forall t | t in l.terms ensures exists i :: ReverseOf(w, i, t) {
      var i :| ReverseOf(v, i, t);
      assert ReverseOf(w, i, t);
    }
    forall t | t in l.dirs ensures exists i :: DirectOf(w, l.root, i, t) {
      var i :| DirectOf(v, l.root, i, t);
      assert DirectOf(w, l.root, i, t);
    }
    forall i | i in l.log && i !in l.owed ensures Noted(w, l.terms, l.dirs, i) {
      NotedKept(v, w, l.terms, l.terms, l.dirs, l.dirs, i, s);
    }
  }

  /** More alternatives for reverse dependencies. */
  lemma LoggedMore(v: View, l: Ledger, terms: seq<Term>, dirs: seq<Term>)
    requires Logged(v, l) && Extends(l.terms, terms) && Extends(l.dirs, dirs)
    ensures Logged(v, l.(terms := terms, dirs := dirs))
  {
    forall i | i in l.log && i !in l.owed ensures Noted(v, terms, dirs, i) {
      assert Noted(v, l.terms, l.dirs, i);
    }
  }

  /** One more entry has inherited, and its selects have been added. */
  lemma BooksStep(v: View, w: View, l: Ledger, m: Ledger, i: Id, p: Id, e: Entry)
    requires Books(v, l) && m == l.(terms := m.terms, rev := m.rev)
    requires i in v.data && i !in v.done && i in v.up && v.up[i] == p && p in v.done
    requires w == v.(data := v.data[i := e], done := v.done + {i})
    requires v.data[i] == v.orig[i] && Inherits(ParentDep(v.data[p]), v.orig[i], e)
    requires SimpleOpt(e.dep) && SimpleProps(e.props) && EntryScoped(e, l.table)
    requires Extends(l.terms, m.terms) && SelectsIn(e.sym, e.props, m.terms)
    requires forall t :: t in m.terms ==> t in l.terms || FromSelect(e.sym, e.props, t)
    requires TermsScoped(m.terms, l.table) && m.rev == Accumulate(m.terms)
    ensures Books(w, m) && Grown(v, w, [i])
  {
    SoundStep(v, w, l.root, l.terms, m.terms, i, p, e);
    ContributionsKept(v, w, l, [i]);
    LoggedMore(w, l, m.terms, l.dirs);
    assert l.(terms := m.terms, dirs := l.dirs).log == m.log;
    LoggedSame(w, l.(terms := m.terms), m);
    forall t | t in m.terms ensures exists x :: ReverseOf(w, x, t) {
      if t !in l.terms { assert ReverseOf(w, i, t); }
    }
    PlacementsKept(v, w, [i]);
  }

  lemma LoggedSame(v: View, l: Ledger, m: Ledger)
    requires Logged(v, l) && m.terms == l.terms && m.dirs == l.dirs && m.log == l.log && m.owed == l.owed
    ensures Logged(v, m)
  {
    forall i | i in m.log && i !in m.owed ensures Noted(v, m.terms, m.dirs, i) {
      assert Noted(v, l.terms, l.dirs, i);
    }
  }

  lemma ChoosingScoped(e: Entry, table: set<Symbol>)
    requires Proper(e) && Chooses(e) && EntryScoped(e, table) && WithConstants({}) <= table
    ensures TermsScoped([ChoosingTerm(e)], table)
  {
    assert PropScoped(e.props[e.prompt.value], table);
  }

  lemma ReverseMore(v: View, terms: seq<Term>, p: Id, t: Term)
    requires Reverse(v, terms) && ReverseOf(v, p, t)
    ensures Reverse(v, terms + [t])
  {
    forall x | x in terms + [t] ensures exists i :: ReverseOf(v, i, x) {
      if x != t { assert x in terms; }
    }
  }

  /** A choice that cannot be left unset has added its alternative. */
  lemma BooksChoosing(v: View, l: Ledger, p: Id)
    requires Books(v, l) && p in v.done && Proper(v.data[p]) && Chooses(v.data[p])
    ensures var t := ChoosingTerm(v.data[p]);
            Books(v, l.(terms := l.terms + [t], rev := Accumulate(l.terms + [t])))
  {
    hide ChoosingTerm, Placements, EntryScoped, Inherited, Recorded;
    var t := ChoosingTerm(v.data[p]);
    ChoosingScoped(v.data[p], l.table);
    SoundMore(v, l.root, l.terms, t);
    ReverseMore(v, l.terms, p, t);
    LoggedMore(v, l, l.terms + [t], l.dirs);
    LoggedSame(v, l.(terms := l.terms + [t], dirs := l.dirs),
               l.(terms := l.terms + [t], rev := Accumulate(l.terms + [t])));
  }

  /** An entry has added its dependency to the alternatives of its symbol. */
  lemma BooksDirect(v: View, l: Ledger, p: Id)
    requires Books(v, l) && p in v.done && p in v.data && v.data[p].sym.Some? && v.data[p].dep.Some?
    ensures var t := Term(v.data[p].sym.value, v.data[p].dep.value);
            Books(v, l.(dirs := l.dirs + [t], dir := Accumulate(l.dirs + [t])))
  {
    var t := Term(v.data[p].sym.value, v.data[p].dep.value);
    assert EntryScoped(v.data[p], l.table);
    assert p != l.root && DirectOf(v, l.root, p, t);
    LoggedMore(v, l, l.terms, l.dirs + [t]);
    LoggedSame(v, l.(terms := l.terms, dirs := l.dirs + [t]),
               l.(dirs := l.dirs + [t], dir := Accumulate(l.dirs + [t])));
  }

  /** An entry has been taken in, or has stopped. */
  lemma BooksPlaced(v: View, w: View, l: Ledger, s: seq<Id>)
    requires Books(v, l) && Grown(v, w, s) && w == v.(under := w.under, stop := w.stop)
    requires forall i :: i in w.under && i !in v.under ==> AbsorbedBy(w, i, w.under[i])
    requires forall p :: p in w.stop && p !in v.stop ==> exists lo, hi :: StopAt(w, p, lo, hi)
    ensures Books(w, l)
  {
    SoundKept(v, w, l.root, l.terms);
    ContributionsKept(v, w, l, s);
    PlacementsKept(v, w, s);
  }

  lemma BooksOpen(v: View, l: Ledger, p: Id)
    requires Books(v, l) && p in v.done
    ensures Books(v, l.(log := l.log + [p], owed := l.owed + [p]))
  {
    var m := l.(log := l.log + [p], owed := l.owed + [p]);
    forall i | i in m.log && i !in m.owed ensures Noted(v, m.terms, m.dirs, i) {
      assert Noted(v, l.terms, l.dirs, i);
    }
  }

  lemma BooksClose(v: View, l: Ledger, owed: seq<Id>, p: Id)
    requires Books(v, l) && l.owed == owed + [p] && Noted(v, l.terms, l.dirs, p)
    ensures Books(v, l.(owed := owed))
  {
    var m := l.(owed := owed);
    forall i | i in m.log && i !in m.owed ensures Noted(v, m.terms, m.dirs, i) {
      if i != p { assert Noted(v, l.terms, l.dirs, i); }
    }
  }

  /** One more property, and its alternative if it is a select. */
  lemma MoreSelects(sym: Option<Symbol>, props: seq<Property>, q: Property, terms: seq<Term>)
    ensures SelectsIn(sym, props, terms) && (q.Select? && sym.Some? ==> SelectTerm(sym.value, q) in terms) ==>
              SelectsIn(sym, props + [q], terms)
    ensures forall t :: FromSelect(sym, props, t) ==> FromSelect(sym, props + [q], t)
    ensures q.Select? && sym.Some? ==> FromSelect(sym, props + [q], SelectTerm(sym.value, q))
  {
    forall t | FromSelect(sym, props, t) ensures FromSelect(sym, props + [q], t) {
      var j :| 0 <= j < |props| && props[j].Select? && t == SelectTerm(sym.value, props[j]);
      assert (props + [q])[j] == props[j];
    }
    if q.Select? && sym.Some? { assert (props + [q])[|props|] == q; }
  }
}
