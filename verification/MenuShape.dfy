/** The shape of the menu tree while it is being finalised: siblings done and still to come, and for every
    entry the one it hangs under. */
module MenuShape {
  import opened Options
  import opened Exprs
  import opened MenuTree
  import opened MenuBooks

  /* ---------- the shape that results ---------- */

  /** Only an entry with a prompt has entries below it. */
  ghost predicate Flat(orig: map<Id, Entry>, f: Forest) {
    match f
    case Nil => true
    case Cons(i, k, r) => (k.Nil? || (i in orig && orig[i].prompt.Some?)) && Flat(orig, k) && Flat(orig, r)
  }

  ghost predicate FlatBelow(orig: map<Id, Entry>, f: Forest) {
    match f
    case Nil => true
    case Cons(_, k, r) => Flat(orig, k) && FlatBelow(orig, r)
  }

  lemma {:induction false} FlatAppend(orig: map<Id, Entry>, f: Forest, g: Forest)
    ensures Flat(orig, f) && Flat(orig, g) ==> Flat(orig, Append(f, g))
    ensures FlatBelow(orig, f) && FlatBelow(orig, g) ==> FlatBelow(orig, Append(f, g))
    ensures Flat(orig, f) ==> FlatBelow(orig, f)
    decreases f
  {
    if f.Cons? { FlatAppend(orig, f.rest, g); }
  }

  /* ---------- the entry an entry hangs under ---------- */

  ghost predicate Hosted(v: View, i: Id) {
    i in v.under || i in v.up
  }

  /** The sibling that took the entry in, or else the entry it was written under. */
  ghost function Host(v: View, i: Id): Id
    requires Hosted(v, i)
  {
    if i in v.under then v.under[i] else v.up[i]
  }

  ghost predicate Promptless(v: View, i: Id) {
    i in v.orig && v.orig[i].prompt.None?
  }

  /** From `i` through `n` entries without a prompt, all in `s`, to `p`. */
  ghost predicate Steps(v: View, i: Id, p: Id, n: nat, s: seq<Id>)
    decreases n
  {
    i in s && Hosted(v, i) &&
    if n == 0 then Host(v, i) == p else Promptless(v, Host(v, i)) && Steps(v, Host(v, i), p, n - 1, s)
  }

  ghost predicate Climbs(v: View, i: Id, p: Id, s: seq<Id>) {
    exists n: nat :: Steps(v, i, p, n, s)
  }

  /** Every entry of the forest hangs where its own chain of hosts leads, past entries without a prompt. */
  ghost predicate Hung(v: View, f: Forest, p: Ptr, s: seq<Id>)
    decreases f
  {
    match f
    case Nil => true
    case Cons(i, k, r) => p.Some? && Climbs(v, i, p.value, s) && Hung(v, k, Some(i), s) && Hung(v, r, p, s)
  }

  /** The hosts of the entries in `s` are the same. */
  ghost predicate SameHosts(v: View, w: View, s: seq<Id>) {
    && w.orig == v.orig && w.up == v.up
    && forall i :: i in s ==> (i in w.under <==> i in v.under) && (i in v.under ==> w.under[i] == v.under[i])
  }

  lemma {:induction false} StepsKept(v: View, w: View, i: Id, p: Id, n: nat, s: seq<Id>, t: seq<Id>)
    requires Steps(v, i, p, n, s) && SameHosts(v, w, s) && Covers(t, s)
    ensures Steps(w, i, p, n, t)
    decreases n
  {
    if n > 0 { StepsKept(v, w, Host(v, i), p, n - 1, s, t); }
  }

  lemma {:induction false} HungKept(v: View, w: View, f: Forest, p: Ptr, s: seq<Id>, t: seq<Id>)
    requires Hung(v, f, p, s) && SameHosts(v, w, s) && Covers(t, s)
    ensures Hung(w, f, p, t)
    decreases f
  {
    if f.Cons? {
      var n: nat :| Steps(v, f.id, p.value, n, s);
      StepsKept(v, w, f.id, p.value, n, s, t);
      HungKept(v, w, f.kids, Some(f.id), s, t);
      HungKept(v, w, f.rest, p, s, t);
    }
  }

  lemma {:induction false} HungAppend(v: View, f: Forest, g: Forest, p: Ptr, s: seq<Id>)
    requires Hung(v, f, p, s) && Hung(v, g, p, s)
    ensures Hung(v, Append(f, g), p, s)
    decreases f
  {
    if f.Cons? { HungAppend(v, f.rest, g, p, s); }
  }

  lemma {:induction false} StepsJoin(v: View, i: Id, m: Id, p: Id, n: nat, k: nat, s: seq<Id>)
    requires Steps(v, i, m, n, s) && Promptless(v, m) && Steps(v, m, p, k, s)
    ensures Steps(v, i, p, n + 1 + k, s)
    decreases n
  {
    if n > 0 { StepsJoin(v, Host(v, i), m, p, n - 1, k, s); }
  }

  /** What hangs under an entry without a prompt may hang where that entry does. */
  lemma {:induction false} HungSplice(v: View, k: Forest, m: Id, p: Id, s: seq<Id>)
    requires Hung(v, k, Some(m), s) && Promptless(v, m) && Climbs(v, m, p, s)
    ensures Hung(v, k, Some(p), s)
    decreases k
  {
    if k.Cons? {
      var n: nat :| Steps(v, k.id, m, n, s);
      var j: nat :| Steps(v, m, p, j, s);
      StepsJoin(v, k.id, m, p, n, j, s);
      HungSplice(v, k.rest, m, p, s);
    }
  }

  /** The host of an entry in the forest is in the forest, or where the forest hangs. */
  lemma {:induction false} HungHosts(v: View, f: Forest, p: Id, s: seq<Id>, x: Id)
    requires Hung(v, f, Some(p), s) && x in Pre(f)
    ensures Hosted(v, x) && (Host(v, x) == p || Host(v, x) in s || Host(v, x) in Pre(f))
    decreases f
  {
    if x == f.id {
      var n: nat :| Steps(v, x, p, n, s);
      if n > 0 { assert Steps(v, Host(v, x), p, n - 1, s); }
    } else if x in Pre(f.kids) {
      HungHosts(v, f.kids, f.id, s, x);
    } else {
      HungHosts(v, f.rest, p, s, x);
    }
  }

  /** Where an entry ends up: at the first entry with a prompt, or the root, on its chain of hosts. */
  ghost predicate EndsUp(v: View, root: Id, i: Id, p: Id) {
    && (p == root || (p in v.orig && v.orig[p].prompt.Some?))
    && exists n: nat, s: seq<Id> :: Steps(v, i, p, n, s)
  }

  /** There is only one such entry. */
  lemma EndsUpOnce(v: View, root: Id, i: Id, p: Id, q: Id)
    requires EndsUp(v, root, i, p) && EndsUp(v, root, i, q) && !Hosted(v, root)
    ensures p == q
  {
    var n: nat, s: seq<Id> :| Steps(v, i, p, n, s);
    var k: nat, t: seq<Id> :| Steps(v, i, q, k, t);
    StepsOnce(v, root, i, p, q, n, k, s, t);
  }

  lemma {:induction false} StepsOnce(v: View, root: Id, i: Id, p: Id, q: Id, n: nat, k: nat, s: seq<Id>, t: seq<Id>)
    requires Steps(v, i, p, n, s) && Steps(v, i, q, k, t) && !Hosted(v, root)
    requires (p == root || !Promptless(v, p)) && (q == root || !Promptless(v, q))
    ensures p == q
    decreases n
  {
    if n > 0 && k > 0 { StepsOnce(v, root, Host(v, i), p, q, n - 1, k - 1, s, t); }
  }

  /** The finished tree: the parent of every entry is where it ends up. */
  ghost predicate Placed(v: View, root: Id, h: Heap, s: seq<Id>) {
    forall i :: i in s ==> i in h && h[i].parent.Some? && EndsUp(v, root, i, h[i].parent.value)
  }

  lemma {:induction false} PlacedAll(v: View, root: Id, h: Heap, first: Ptr, p: Id, f: Forest, end: Ptr, s: seq<Id>)
    requires Seg(h, first, Some(p), f, end) && Hung(v, f, Some(p), s) && Flat(v.orig, f)
    requires p == root || f.Nil? || (p in v.orig && v.orig[p].prompt.Some?)
    ensures Placed(v, root, h, Pre(f))
    decreases f
  {
    if f.Cons? {
      var n: nat :| Steps(v, f.id, p, n, s);
      assert EndsUp(v, root, f.id, p);
      PlacedAll(v, root, h, h[f.id].list, f.id, f.kids, None, s);
      PlacedAll(v, root, h, h[f.id].next, p, f.rest, end, s);
    }
  }

  /* ---------- where the forest stands in the order ---------- */

  /** The entries logged and then those of `f` begin the order; what `f` was written under is logged, and
      everything written there is logged or in `f`. */
  ghost predicate Located(v: View, par: Ptr, log: seq<Id>, f: Forest) {
    && log + Pre(f) <= v.order && (par.Some? ==> par.value in log)
    && forall x :: x in v.order && UpIs(v, x, par) ==> x in log || x in Pre(f)
  }

  lemma LocatedKept(v: View, w: View, par: Ptr, log: seq<Id>, f: Forest)
    requires Located(v, par, log, f) && SameTree(v, w)
    ensures Located(w, par, log, f)
  {
  }

  lemma LocatedLater(v: View, par: Ptr, log: seq<Id>, k: Forest, a: Forest, b: Forest)
    requires Located(v, par, log, k) && Pre(a) + Pre(b) == Pre(k)
    ensures Located(v, par, log + Pre(a), b)
  {
    hide Pre;
    var x, y, z := Pre(a), Pre(b), Pre(k);
    assert log + x + y == log + z;
    forall i | i in v.order && UpIs(v, i, par) ensures i in log + x || i in y {
      if i in z { assert i in x + y; }
    }
  }

  lemma LocatedKids(v: View, par: Ptr, log: seq<Id>, f: Forest)
    requires f.Cons? && Located(v, par, log, f) && KidsIn(v, f.id, f.kids)
    ensures Located(v, Some(f.id), log + [f.id], f.kids)
  {
    assert log + Pre(f) == log + [f.id] + Pre(f.kids) + Pre(f.rest);
  }

  lemma LocatedRest(v: View, par: Ptr, log: seq<Id>, f: Forest)
    requires f.Cons? && f.kids.Nil? && Located(v, par, log, f)
    ensures Located(v, par, log + [f.id], f.rest)
  {
    assert log + Pre(f) == log + [f.id] + Pre(f.rest);
  }

  lemma LocatedSame(v: View, w: View, par: Ptr, log: seq<Id>, f: Forest, g: Forest)
    requires Located(v, par, log, f) && SameTree(v, w) && Pre(g) == Pre(f)
    ensures Located(w, par, log, g)
  {
  }

  /** What an entry was written under is another entry. */
  lemma ParentOther(v: View, par: Ptr, log: seq<Id>, f: Forest)
    requires f.Cons? && Located(v, par, log, f) && Distinct(v.order)
    ensures par != Some(f.id)
  {
    StandsLocated(v, par, log, f);
    if par.Some? { Elsewhere(v.order, log, |log| + 1, par.value); assert v.order[|log|..|log| + 1][0] == f.id; }
  }

  lemma NotChildless(v: View, f: Forest, par: Ptr, log: seq<Id>)
    requires Ready(v, f, par) && f.Cons? && f.kids.Cons? && Located(v, par, log, f)
    ensures !Childless(v, f.id)
  {
    StandsLocated(v, par, log, f);
    assert v.order[|log| + 1] == Pre(f.kids)[0] == f.kids.id;
    assert v.up[f.kids.id] == f.id;
  }

  /** Noting where an entry stopped changes nothing else. */
  lemma HaltViews(u: View, w: View, x: View, par: Ptr, s: seq<Id>, g: Forest)
    requires g.Cons? && Distinct(Pre(g)) && Grown(u, w, s) && g.id in s && g.id !in w.stop
    requires x == w.(stop := x.stop) && Extended(w.stop, x.stop, [g.id])
    requires Ready(w, g.rest, par) && Hung(w, g.kids, Some(g.id), Pre(g.kids)) && AllDone(w, Pre(g.kids))
    ensures Grown(u, x, s) && Ready(x, g.rest, par) && Hung(x, g.kids, Some(g.id), Pre(g.kids))
    ensures AllDone(x, Pre(g.kids))
  {
    ForestParts(g);
    GrownTrans(u, w, x, s, [g.id], s);
    ReadyKept(w, x, g.rest, par, [g.id]);
    HungKept(w, x, g.kids, Some(g.id), Pre(g.kids), Pre(g.kids));
  }

  /** How `log`, the entry `p`, what is below it and what is beside it stand at the beginning of the order. */
  ghost predicate Stands(o: seq<Id>, log: seq<Id>, p: Id, k: seq<Id>, r: seq<Id>) {
    && |log| + 1 + |k| + |r| <= |o| && o[|log|] == p && log <= o
    && (forall n :: 0 <= n < |k| ==> o[|log| + 1 + n] == k[n])
    && (r != [] ==> o[|log| + 1 + |k|] == r[0])
  }

  lemma StandsHere(o: seq<Id>, log: seq<Id>, p: Id, k: seq<Id>, r: seq<Id>)
    requires log + ([p] + k + r) <= o
    ensures Stands(o, log, p, k, r)
  {
    var t := log + ([p] + k + r);
    assert forall n :: 0 <= n < |t| ==> t[n] == o[n];
    assert t[|log|] == p && (forall n :: 0 <= n < |k| ==> t[|log| + 1 + n] == k[n]);
    assert r != [] ==> t[|log| + 1 + |k|] == r[0];
    assert forall n :: 0 <= n < |log| ==> t[n] == log[n];
  }

  /** A sibling among what an entry took in is under the entry or another one of them. */
  lemma RanOne(v: View, par: Ptr, log: seq<Id>, g: Forest, n: nat, hi: nat)
    requires g.Cons? && Distinct(v.order) && par.Some? && par.value in log && UpIs(v, g.id, par)
    requires Stands(v.order, log, g.id, Pre(g.kids), Pre(g.rest)) && Hung(v, g.kids, Some(g.id), Pre(g.kids))
    requires |log| < n < |log| + 1 + |Pre(g.kids)| <= hi <= |v.order| && SameUp(v, v.order[n], g.id)
    ensures v.order[n] in v.under && v.under[v.order[n]] in v.order[|log|..hi]
  {
    var o, k := v.order, Pre(g.kids);
    var x := o[n];
    assert x == k[n - |log| - 1];
    HungHosts(v, g.kids, g.id, k, x);
    Inside(o, |log|, k, g.id, hi, Host(v, x));
    Elsewhere(o, log, hi, par.value);
  }

  lemma Beyond(o: seq<Id>, log: seq<Id>, p: Id, k: seq<Id>, n: nat)
    requires Distinct(o) && Stands(o, log, p, k, []) && |log| + 1 + |k| <= n < |o|
    ensures o[n] !in log && o[n] != p && o[n] !in k
  {
    assert forall i :: 0 <= i < |log| ==> log[i] == o[i] && o[i] != o[n];
    assert forall i :: 0 <= i < |k| ==> k[i] == o[|log| + 1 + i] && o[|log| + 1 + i] != o[n];
  }

  /** Without siblings to come, the rest of the order holds none. */
  lemma NoneLater(v: View, par: Ptr, log: seq<Id>, g: Forest, n: nat)
    requires g.Cons? && g.rest.Nil? && Distinct(v.order) && Located(v, par, log, g)
    requires Stands(v.order, log, g.id, Pre(g.kids), []) && |log| + 1 + |Pre(g.kids)| <= n < |v.order|
    ensures !UpIs(v, v.order[n], par)
  {
    Beyond(v.order, log, g.id, Pre(g.kids), n);
    assert Pre(g) == [g.id] + Pre(g.kids);
  }

  /** What an entry took in is a stretch of the order, and every sibling in it is under something in it. */
  lemma RanHere(v: View, par: Ptr, log: seq<Id>, g: Forest)
    requires g.Cons? && Distinct(v.order) && Located(v, par, log, g) && UpIs(v, g.id, par) && g.id in v.up
    requires Hung(v, g.kids, Some(g.id), Pre(g.kids))
    ensures var mid := |log| + 1 + |Pre(g.kids)|;
            && Ran(v, g.id, |log|, if g.rest.Nil? then |v.order| else mid)
            && (g.rest.Cons? ==> mid < |v.order| && v.order[mid] == g.rest.id)
  {
    hide Hung, Distinct, Located;
    var mid := |log| + 1 + |Pre(g.kids)|;
    StandsLocated(v, par, log, g);
    var hi := if g.rest.Nil? then |v.order| else mid;
    forall n | |log| < n < hi && SameUp(v, v.order[n], g.id)
      ensures v.order[n] in v.under && v.under[v.order[n]] in v.order[|log|..hi]
    {
      if n < mid {
        RanOne(v, par, log, g, n, hi);
      } else {
        NoneLater(v, par, log, g, n);
        assert false;
      }
    }
  }

  lemma StandsLocated(v: View, par: Ptr, log: seq<Id>, g: Forest)
    requires g.Cons? && Located(v, par, log, g)
    ensures Stands(v.order, log, g.id, Pre(g.kids), Pre(g.rest)) && (par.Some? ==> par.value in log)
    ensures g.rest.Cons? ==> Pre(g.rest) != [] && Pre(g.rest)[0] == g.rest.id
  {
    StandsHere(v.order, log, g.id, Pre(g.kids), Pre(g.rest));
  }

  lemma Inside(o: seq<Id>, lo: nat, k: seq<Id>, p: Id, hi: nat, y: Id)
    requires lo + 1 + |k| <= hi <= |o| && o[lo] == p && forall n :: 0 <= n < |k| ==> o[lo + 1 + n] == k[n]
    requires y == p || y in k
    ensures y in o[lo..hi]
  {
    if y == p {
      assert o[lo..hi][0] == p;
    } else {
      var n :| 0 <= n < |k| && k[n] == y;
      assert o[lo..hi][1 + n] == y;
    }
  }

  lemma Elsewhere(o: seq<Id>, log: seq<Id>, hi: nat, y: Id)
    requires Distinct(o) && |log| <= hi <= |o| && log <= o && y in log
    ensures y !in o[|log|..hi]
  {
  }

  /** What finalising one sibling, and moving it below `above`, leaves of the chain around it. */
  lemma SiblingDone(h0: Heap, h1: Heap, h2: Heap, h3: Heap, k: Forest, first: Ptr, above: Ptr, par: Ptr,
                    m: Id, a: Forest, b: Forest, b': Forest)
    requires Distinct(Pre(k)) && Pre(a) + Pre(b) == Pre(k)
    requires Seg(h1, first, above, a, Some(m)) && OnlyIn(h0, h1, Pre(k)) && OnlyIn(h1, h2, Pre(b))
    requires b'.Cons? && b'.id == m && Linked(h2, Some(m), par, b') && Pre(b') == Pre(b)
    requires h3 == h2[m := h2[m].(parent := above)]
    ensures Seg(h3, first, above, Take(a, b'), h3[m].next) && Linked(h3, h3[m].next, par, b'.rest)
    ensures Pre(Take(a, b')) + Pre(b'.rest) == Pre(k) && OnlyIn(h0, h3, Pre(k))
  {
    DistinctParts(Pre(a), Pre(b));
    ForestParts(b');
    LinkedParts(h2, Some(m), par, b');
    SegKept(h1, h2, first, above, a, Some(m), Pre(b));
    SegKept(h2, h3, first, above, a, Some(m), [m]);
    SegKept(h2, h3, h2[m].list, Some(m), b'.kids, None, [m]);
    SegKept(h2, h3, h2[m].next, par, b'.rest, None, [m]);
    Boundary(h3, first, above, a, m, b');
    TakeShape(a, b');
    OnlyInTrans(h0, h1, h2, Pre(k), Pre(b), Pre(k));
    OnlyInTrans(h0, h2, h3, Pre(k), [m], Pre(k));
  }

  lemma ViewsDone(u: View, v: View, w: View, k: Forest, a: Forest, b: Forest, b': Forest)
    requires Pre(a) + Pre(b) == Pre(k) && Grown(u, v, Pre(k)) && Grown(v, w, Pre(b)) && AllDone(v, Pre(a))
    requires b.Cons? && b'.Cons? && b'.id == b.id && b.id in v.done && AllDone(w, Pre(b'.kids))
    ensures Grown(u, w, Pre(k)) && AllDone(w, Pre(Take(a, b'))) && Grown(v, w, Pre(k))
  {
    GrownTrans(u, v, w, Pre(k), Pre(b), Pre(k));
    TakeShape(a, b');
  }

  lemma ShapeDone(orig: map<Id, Entry>, l: seq<Id>, a: Forest, b: Forest)
    requires FlatBelow(orig, a) && b.Cons? && Flat(orig, b.kids)
    ensures FlatBelow(orig, Take(a, b))
    ensures l + Pre(a) + [b.id] + Pre(b.kids) == l + Pre(Take(a, b))
    ensures |Pre(b.rest)| < |Pre(b)|
  {
    var one := Cons(b.id, b.kids, Nil);
    assert FlatBelow(orig, one);
    FlatAppend(orig, a, one);
    TakeShape(a, b);
    Joined(l, Pre(a), [b.id], Pre(b.kids));
  }

  lemma Joined(l: seq<Id>, a: seq<Id>, x: seq<Id>, k: seq<Id>)
    ensures l + a + x + k == l + (a + x + k)
  {
  }

  /** A loop over siblings that finalises them: where it began, the first sibling, and the parent the
      siblings get and have. */
  datatype Round = Round(view: View, heap: Heap, log: seq<Id>, first: Ptr, above: Ptr, par: Ptr)

  /** How far it has come: the siblings in `a` are finished, those in `b` are still to come. */
  ghost predicate Progressed(r: Round, h: Heap, v: View, log: seq<Id>, k: Forest, m: Ptr, a: Forest, b: Forest) {
    && Seg(h, r.first, r.above, a, m) && Linked(h, m, r.par, b) && Pre(a) + Pre(b) == Pre(k)
    && AllDone(v, Pre(a)) && Ready(v, b, r.par) && FlatBelow(v.orig, a) && Hung(v, a, r.above, Pre(a))
    && log == r.log + Pre(a) && OnlyIn(r.heap, h, Pre(k)) && Grown(r.view, v, Pre(k))
  }

  /** What `menu_finalize` on the entry `p`, which stands before the others in `f`, does: `f` becomes
      `f'`, with every link in place and the entries in the same order; all that is now below `p` hangs where
      its hosts lead and has been finalised, in that order, and what is still beside it has not been looked into. */
  ghost predicate Finalised(h: Heap, g: Heap, v: View, w: View, log: seq<Id>, log': seq<Id>,
                            par: Ptr, p: Id, f: Forest, f': Forest) {
    && f'.Cons? && f'.id == p && Linked(g, Some(p), par, f') && Pre(f') == Pre(f)
    && AllDone(w, Pre(f'.kids)) && Ready(w, f'.rest, par) && Flat(w.orig, f'.kids)
    && Hung(w, f'.kids, Some(p), Pre(f'.kids)) && p !in w.under && UpIs(w, p, par)
    && log' == log + [p] + Pre(f'.kids)
    && OnlyIn(h, g, Pre(f)) && Grown(v, w, Pre(f))
  }

  /** The sibling has been taken in by `above`, or belongs there anyway. */
  ghost predicate Taken(w: View, x: View, m: Id, above: Ptr, par: Ptr) {
    above.Some? && if above == par then x == w else x == w.(under := w.under[m := above.value])
  }

  lemma HungRound(v: View, w: View, x: View, above: Ptr, par: Ptr, a: Forest, b: Forest, b': Forest)
    requires b.Cons? && b'.Cons? && b'.id == b.id && Distinct(Pre(a) + Pre(b)) && Pre(b') == Pre(b)
    requires Hung(v, a, above, Pre(a)) && Grown(v, w, Pre(b)) && Taken(w, x, b.id, above, par)
    requires Hung(w, b'.kids, Some(b.id), Pre(b'.kids)) && b.id !in w.under && UpIs(w, b.id, par)
    ensures Hung(x, Take(a, b'), above, Pre(Take(a, b')))
  {
    var m, all := b.id, Pre(Take(a, b'));
    DistinctParts(Pre(a), Pre(b));
    ForestParts(b');
    TakeShape(a, b');
    assert SameHosts(v, x, Pre(a)) && SameHosts(w, x, Pre(b'.kids));
    HungKept(v, x, a, above, Pre(a), all);
    HungKept(w, x, b'.kids, Some(m), Pre(b'.kids), all);
    assert Steps(x, m, above.value, 0, all);
    HungAppend(x, a, Cons(m, b'.kids, Nil), above, all);
  }

  lemma TakenGrown(v: View, w: View, x: View, m: Id, above: Ptr, par: Ptr, s: seq<Id>)
    requires Grown(v, w, s) && Taken(w, x, m, above, par) && m in s && m !in w.under
    ensures Grown(v, x, s) && Grown(w, x, [m])
  {
  }

  lemma RoundDone(r: Round, h1: Heap, h2: Heap, h3: Heap, v: View, w: View, x: View, log1: seq<Id>, log2: seq<Id>,
                  k: Forest, m: Id, a: Forest, b: Forest, b': Forest)
    requires Distinct(Pre(k)) && Progressed(r, h1, v, log1, k, Some(m), a, b)
    requires Finalised(h1, h2, v, w, log1, log2, r.par, m, b, b') && Taken(w, x, m, r.above, r.par)
    requires h3 == h2[m := h2[m].(parent := r.above)]
    ensures Progressed(r, h3, x, log2, k, h3[m].next, Take(a, b'), b'.rest)
    ensures |Pre(b'.rest)| < |Pre(b)| && Grown(v, x, Pre(k))
  {
    SiblingDone(r.heap, h1, h2, h3, k, r.first, r.above, r.par, m, a, b, b');
    TakenGrown(v, w, x, m, r.above, r.par, Pre(b));
    ViewsDone(r.view, v, x, k, a, b, b');
    ShapeDone(v.orig, r.log, a, b');
    HungRound(v, w, x, r.above, r.par, a, b, b');
    assert Distinct(Pre(b)) by { DistinctParts(Pre(a), Pre(b)); }
    ForestParts(b');
    ReadyKept(w, x, b'.rest, r.par, [m]);
  }

  /** The siblings of the forest were all taken in by `p`. */
  ghost predicate TakenIn(v: View, p: Id, f: Forest) {
    match f
    case Nil => true
    case Cons(i, _, r) => i in v.under && v.under[i] == p && TakenIn(v, p, r)
  }

  lemma {:induction false} TakenInTake(v: View, w: View, p: Id, a: Forest, b: Forest, s: seq<Id>)
    requires TakenIn(v, p, a) && Grown(v, w, s) && b.Cons? && b.id in w.under && w.under[b.id] == p
    ensures TakenIn(w, p, Take(a, b))
    decreases a
  {
    if a.Cons? { TakenInTake(v, w, p, a.rest, b, s); }
  }

  lemma GrownMore(v: View, w: View, h: Heap, g: Heap, s: seq<Id>, all: seq<Id>)
    requires Grown(v, w, s) && OnlyIn(h, g, s) && Covers(all, s)
    ensures Grown(v, w, all) && OnlyIn(h, g, all)
  {
  }

  /** After the absorbing loop: `a` has moved, `b` has stayed, and `p` itself has not been touched. */
  lemma AbsorbShape(r: Round, h: Heap, v: View, log: seq<Id>, f: Forest, m: Ptr, a: Forest, b: Forest)
    requires f.Cons? && f.kids.Nil? && Distinct(Pre(f)) && Linked(r.heap, Some(f.id), r.par, f)
    requires r.first == r.heap[f.id].next && r.above == Some(f.id)
    requires Progressed(r, h, v, log, f.rest, m, a, b)
    ensures f.id in h && h[f.id] == r.heap[f.id] && h[f.id].parent == r.par && h[f.id].list.None?
    ensures Pre(Cons(f.id, a, b)) == Pre(f) && |Pre(b)| <= |Pre(f.rest)|
    ensures OnlyIn(r.heap, h, Pre(f)) && Grown(r.view, v, Pre(f))
    ensures f.id in v.under ==> f.id in r.view.under
    ensures f.id in v.stop ==> f.id in r.view.stop
  {
    assert f.id !in Pre(f.rest) by { ForestParts(f); }
    LinkedParts(r.heap, Some(f.id), r.par, f);
    PreRegroup(f, a, b);
    GrownMore(r.view, v, r.heap, h, Pre(f.rest), Pre(f));
  }

  lemma AbsorbEnds(h: Heap, p: Id, m: Ptr, a: Forest, b: Forest)
    requires Distinct(Pre(Cons(p, a, b))) && a.Cons? && p in h && Seg(h, h[p].next, Some(p), a, m)
    ensures Last(a) in h && Last(a) != p && h[Last(a)].next == m
  {
    ForestParts(Cons(p, a, b));
    LastInPre(a);
    SegRetarget(h, h[p].next, Some(p), a, m, None);
  }

  lemma AbsorbLinks(h: Heap, g: Heap, p: Id, par: Ptr, m: Ptr, a: Forest, b: Forest)
    requires p in h && h[p].parent == par && Distinct(Pre(Cons(p, a, b))) && a.Cons?
    requires Seg(h, h[p].next, Some(p), a, m) && Linked(h, m, par, b)
    requires Last(a) in h && g == h[p := Links(m, par, h[p].next)][Last(a) := h[Last(a)].(next := None)]
    ensures Linked(g, Some(p), par, Cons(p, a, b)) && OnlyIn(h, g, Pre(Cons(p, a, b)))
  {
    ForestParts(Cons(p, a, b));
    AbsorbEnds(h, p, m, a, b);
    LastInPre(a);
    SegRetarget(h, h[p].next, Some(p), a, m, None);
    var x := h[Last(a) := h[Last(a)].(next := None)];
    SegKept(h, x, m, par, b, None, [Last(a)]);
    SegKept(x, g, h[p].next, Some(p), a, None, [p]);
    SegKept(x, g, m, par, b, None, [p]);
  }

  lemma FlattenStep(orig: map<Id, Entry>, a: Forest, b: Forest)
    requires b.Cons? && Flat(orig, a) && FlatBelow(orig, b)
    requires (b.kids.Nil? || (b.id in orig && orig[b.id].prompt.Some?))
    ensures Flat(orig, Take(a, b)) && FlatBelow(orig, b.rest)
    ensures Pre(Take(a, b)) + Pre(b.rest) == Pre(a) + Pre(b) && |Pre(b.rest)| < |Pre(b)|
  {
    TakeShape(a, b);
    assert Flat(orig, Cons(b.id, b.kids, Nil));
    FlatAppend(orig, a, Cons(b.id, b.kids, Nil));
  }

  lemma KidsReplaced(h: Heap, g: Heap, p: Id, par: Ptr, f: Forest, k: Forest)
    requires f.Cons? && f.id == p && Linked(h, Some(p), par, f) && Distinct(Pre(f)) && OnlyIn(h, g, Pre(f.kids))
    requires p in g && Linked(g, g[p].list, Some(p), k) && Pre(k) == Pre(f.kids)
    ensures Linked(g, Some(p), par, Cons(p, k, f.rest)) && Pre(Cons(p, k, f.rest)) == Pre(f) && OnlyIn(h, g, Pre(f))
  {
    ForestParts(f);
    LinkedParts(h, Some(p), par, f);
    SegKept(h, g, h[p].next, par, f.rest, None, Pre(f.kids));
  }

  /** One step of flattening keeps every entry where its hosts lead. */
  lemma HungFlatten(v: View, p: Id, m: Id, b: Forest, s: seq<Id>)
    requires b.Cons? && b.id == m && Hung(v, b, Some(p), s) && Promptless(v, m)
    ensures Hung(v, Cons(m, Nil, Append(b.kids, b.rest)), Some(p), s)
  {
    HungSplice(v, b.kids, m, p, s);
    HungAppend(v, b.kids, b.rest, Some(p), s);
  }

  lemma HungTake(v: View, a: Forest, b: Forest, p: Ptr, s: seq<Id>)
    requires b.Cons? && Hung(v, a, p, s) && Hung(v, b, p, s)
    ensures Hung(v, Take(a, b), p, s) && Hung(v, b.rest, p, s)
  {
    HungAppend(v, a, Cons(b.id, b.kids, Nil), p, s);
  }

  lemma DescendViews(u: View, v: View, w: View, f: Forest, par: Ptr)
    requires f.Cons? && Distinct(Pre(f)) && Ready(u, f.rest, par) && Grown(u, v, Pre(f.kids))
    requires Grown(v, w, Pre(f.kids))
    ensures Grown(u, w, Pre(f)) && Ready(w, f.rest, par)
    ensures f.id in w.under ==> f.id in u.under
  {
    ForestParts(f);
    GrownTrans(u, v, w, Pre(f.kids), Pre(f.kids), Pre(f.kids));
    ReadyKept(u, w, f.rest, par, Pre(f.kids));
    GrownTrans(u, w, w, Pre(f.kids), Pre(f.kids), Pre(f));
  }

  /* ---------- the tree as parsed ---------- */

  lemma {:induction false} ParentWhere(h: Heap, first: Ptr, p: Id, f: Forest, x: Id)
    requires Linked(h, first, Some(p), f) && x in Pre(f)
    ensures x in h && h[x].parent.Some? && (h[x].parent.value == p || h[x].parent.value in Pre(f))
    decreases f
  {
    if x != f.id {
      if x in Pre(f.kids) {
        ParentWhere(h, h[f.id].list, f.id, f.kids, x);
      } else {
        ParentWhere(h, h[f.id].next, p, f.rest, x);
      }
    }
  }

  /** What was written under an entry of `f` is in `f`. */
  ghost predicate Enclosed(v: View, f: Forest) {
    forall x :: x in v.order && x in v.up && v.up[x] in Pre(f) ==> x in Pre(f)
  }

  ghost predicate UpsFrom(h: Heap, v: View) {
    forall i :: i in h ==> UpIs(v, i, h[i].parent)
  }

  lemma {:induction false} ParsedFresh(h: Heap, v: View, p: Id, f: Forest, first: Ptr)
    requires Linked(h, first, Some(p), f) && v.data == v.orig && v.data.Keys == h.Keys
    requires forall i :: i in Pre(f) ==> i !in v.done
    requires UpsFrom(h, v) && v.under == map[] && v.stop == map[]
    requires Distinct(Pre(f)) && p !in Pre(f) && Enclosed(v, f)
    ensures Fresh(v, f, p)
    decreases f
  {
    if f.Cons? {
      ForestParts(f);
      forall x | x in v.order && x in v.up && v.up[x] in Pre(f)
        ensures v.up[x] == f.id ==> x in Pre(f.kids)
        ensures v.up[x] in Pre(f.kids) ==> x in Pre(f.kids)
        ensures v.up[x] in Pre(f.rest) ==> x in Pre(f.rest)
      {
        ParentPart(h, v, p, f, first, x);
      }
      ParsedFresh(h, v, f.id, f.kids, h[f.id].list);
      ParsedFresh(h, v, p, f.rest, h[f.id].next);
    }
  }

  /** The parsed tree is ready to be finalised from its root. */
  lemma ParsedReady(h: Heap, v: View, r: Id, f: Forest)
    requires r in h && h[r].parent.None? && h[r].next.None? && Linked(h, h[r].list, Some(r), f)
    requires v.data == v.orig && v.data.Keys == h.Keys && UpsFrom(h, v) && v.done == {r} && v.under == map[]
    requires v.stop == map[]
    requires v.order == [r] + Pre(f) && Distinct(v.order)
    ensures Ready(v, Cons(r, f, Nil), None) && Linked(h, Some(r), None, Cons(r, f, Nil))
    ensures Located(v, None, [], Cons(r, f, Nil))
  {
    DistinctParts([r], Pre(f));
    ParsedFresh(h, v, r, f, h[r].list);
    assert Pre(Cons(r, f, Nil)) == [r] + Pre(f);
    assert [] + ([r] + Pre(f)) == v.order;
  }

  lemma ParentPart(h: Heap, v: View, p: Id, f: Forest, first: Ptr, x: Id)
    requires f.Cons? && Linked(h, first, Some(p), f) && UpsFrom(h, v) && Distinct(Pre(f)) && p !in Pre(f)
    requires x in Pre(f) && x in v.up
    ensures v.up[x] == f.id ==> x in Pre(f.kids)
    ensures v.up[x] in Pre(f.kids) ==> x in Pre(f.kids)
    ensures v.up[x] in Pre(f.rest) ==> x in Pre(f.rest)
  {
    ForestParts(f);
    if x in Pre(f.kids) { ParentWhere(h, h[f.id].list, f.id, f.kids, x); }
    if x in Pre(f.rest) { ParentWhere(h, h[f.id].next, p, f.rest, x); }
  }

  lemma OnlyKids(g: Forest, f: Forest)
    requires g.Cons? && g.rest.Nil? && Pre(g) == [g.id] + Pre(f)
    ensures Pre(g.kids) == Pre(f)
  {
    assert Pre(g) == [g.id] + Pre(g.kids);
    assert Pre(g)[1..] == Pre(g.kids);
  }

  /** The tree when its root has been finalised. */
  lemma RootDone(h: Heap, g: Heap, v: View, w: View, log: seq<Id>, root: Id, f: Forest, f': Forest)
    requires Finalised(h, g, v, w, [], log, None, root, Cons(root, f, Nil), f') && |Pre(f'.rest)| == 0
    ensures f'.Cons? && root in g && g[root].parent.None? && g[root].next.None?
    ensures Linked(g, g[root].list, Some(root), f'.kids)
    ensures Flat(w.orig, f'.kids) && Pre(f'.kids) == Pre(f) && log == [root] + Pre(f)
    ensures Placed(w, root, g, Pre(f)) && !Hosted(w, root)
    ensures forall i :: i in w.done ==> i in v.done || i in [root] + Pre(f)
  {
    assert Pre(Cons(root, f, Nil)) == [root] + Pre(f);
    assert f'.rest.Nil?;
    LinkedParts(g, Some(root), None, f');
    OnlyKids(f', f);
    PlacedAll(w, root, g, g[root].list, root, f'.kids, None, Pre(f'.kids));
    assert [] + [root] + Pre(f'.kids) == [root] + Pre(f);
  }
}
