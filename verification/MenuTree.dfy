/** The menu tree as the program stores it: every entry has `next`, `parent` and `list` pointers.
    An entry is identified by its address, here a number. */
module MenuTree {
  import opened Options
  import opened Exprs

  type Id = nat
  type Ptr = Option<Id>

  datatype Links = Links(next: Ptr, parent: Ptr, list: Ptr)

  type Heap = map<Id, Links>

  /** An entry with the entries below it and the ones after it. */
  datatype Forest = Nil | Cons(id: Id, kids: Forest, rest: Forest)

  /** The order in which the entries were written down. */
  function Pre(f: Forest): seq<Id> {
    match f
    case Nil => []
    case Cons(i, k, r) => [i] + Pre(k) + Pre(r)
  }

  function Append(f: Forest, g: Forest): Forest {
    match f
    case Nil => g
    case Cons(i, k, r) => Cons(i, k, Append(r, g))
  }

  function Last(f: Forest): Id
    requires f.Cons?
  {
    if f.rest.Nil? then f.id else Last(f.rest)
  }

  /** The pointer `p` leads through the siblings of `f`, all below `parent`, up to the pointer `end`. */
  predicate Seg(h: Heap, p: Ptr, parent: Ptr, f: Forest, end: Ptr)
    decreases f
  {
    match f
    case Nil => p == end
    case Cons(i, k, r) =>
      && p == Some(i) && i in h && h[i].parent == parent
      && Seg(h, h[i].list, Some(i), k, None)
      && Seg(h, h[i].next, parent, r, end)
  }

  predicate Linked(h: Heap, p: Ptr, parent: Ptr, f: Forest) {
    Seg(h, p, parent, f, None)
  }

  /* ---------- sequences without repetition ---------- */

  ghost predicate Distinct(s: seq<Id>) {
    forall i, j :: 0 <= i < j < |s| ==> s[i] != s[j]
  }

  ghost predicate Apart(s: seq<Id>, t: seq<Id>) {
    forall x :: x in s ==> x !in t
  }

  lemma DistinctParts(s: seq<Id>, t: seq<Id>)
    requires Distinct(s + t)
    ensures Distinct(s) && Distinct(t) && Apart(s, t)
  {
    forall i, j | 0 <= i < j < |s| ensures s[i] != s[j] {
      assert (s + t)[i] == s[i] && (s + t)[j] == s[j];
    }
    forall i, j | 0 <= i < j < |t| ensures t[i] != t[j] {
      assert (s + t)[|s| + i] == t[i] && (s + t)[|s| + j] == t[j];
    }
    forall i, j | 0 <= i < |s| && 0 <= j < |t| ensures s[i] != t[j] {
      assert (s + t)[i] == s[i] && (s + t)[|s| + j] == t[j];
    }
  }

  lemma ForestParts(f: Forest)
    requires f.Cons? && Distinct(Pre(f))
    ensures f.id !in Pre(f.kids) && f.id !in Pre(f.rest)
    ensures Distinct(Pre(f.kids)) && Distinct(Pre(f.rest)) && Apart(Pre(f.kids), Pre(f.rest))
  {
    DistinctParts([f.id] + Pre(f.kids), Pre(f.rest));
    DistinctParts([f.id], Pre(f.kids));
  }

  /* ---------- pointers ---------- */

  /** Nothing outside `s` has changed. */
  ghost predicate OnlyIn(h: Heap, g: Heap, s: seq<Id>) {
    h.Keys == g.Keys && forall i :: i in h && i !in s ==> g[i] == h[i]
  }

  lemma {:induction false} SegKept(h: Heap, g: Heap, p: Ptr, parent: Ptr, f: Forest, end: Ptr, s: seq<Id>)
    requires Seg(h, p, parent, f, end) && OnlyIn(h, g, s) && Apart(Pre(f), s)
    ensures Seg(g, p, parent, f, end)
    decreases f
  {
    if f.Cons? {
      SegKept(h, g, h[f.id].list, Some(f.id), f.kids, None, s);
      SegKept(h, g, h[f.id].next, parent, f.rest, end, s);
    }
  }

  lemma {:induction false} SegAppend(h: Heap, p: Ptr, parent: Ptr, f: Forest, m: Ptr, g: Forest, end: Ptr)
    requires Seg(h, p, parent, f, m) && Seg(h, m, parent, g, end)
    ensures Seg(h, p, parent, Append(f, g), end) && Pre(Append(f, g)) == Pre(f) + Pre(g)
    decreases f
  {
    if f.Cons? {
      SegAppend(h, h[f.id].next, parent, f.rest, m, g, end);
    }
  }

  lemma {:induction false} PreAppend(f: Forest, g: Forest)
    ensures Pre(Append(f, g)) == Pre(f) + Pre(g)
  {
    if f.Cons? { PreAppend(f.rest, g); }
  }

  lemma {:induction false} LastInPre(f: Forest)
    requires f.Cons?
    ensures Last(f) in Pre(f)
  {
    if f.rest.Cons? { LastInPre(f.rest); }
  }

  /** Writing the `next` pointer of the last sibling moves the end. */
  lemma {:induction false} SegRetarget(h: Heap, p: Ptr, parent: Ptr, f: Forest, end: Ptr, end': Ptr)
    requires Seg(h, p, parent, f, end) && f.Cons? && Distinct(Pre(f))
    ensures Last(f) in h && h[Last(f)].next == end
    ensures Seg(h[Last(f) := h[Last(f)].(next := end')], p, parent, f, end')
    decreases f
  {
    ForestParts(f);
    if f.rest.Nil? {
      var g := h[f.id := h[f.id].(next := end')];
      SegKept(h, g, h[f.id].list, Some(f.id), f.kids, None, [f.id]);
    } else {
      SegRetarget(h, h[f.id].next, parent, f.rest, end, end');
      LastInPre(f.rest);
      var g := h[Last(f) := h[Last(f)].(next := end')];
      SegKept(h, g, h[f.id].list, Some(f.id), f.kids, None, [Last(f)]);
    }
  }

  /** The first of the remaining siblings joins those already dealt with. */
  lemma Boundary(h: Heap, first: Ptr, parent: Ptr, a: Forest, m: Id, b: Forest)
    requires Seg(h, first, parent, a, Some(m)) && b.Cons? && m in h && b.id == m
    requires h[m].parent == parent && Linked(h, h[m].list, Some(m), b.kids)
    ensures Seg(h, first, parent, Take(a, b), h[m].next)
  {
    SegAppend(h, first, parent, a, Some(m), Cons(m, b.kids, Nil), h[m].next);
  }

  lemma {:induction false} LastTake(a: Forest, b: Forest)
    requires b.Cons?
    ensures Take(a, b).Cons? && Last(Take(a, b)) == b.id
    decreases a
  {
    if a.Cons? { LastTake(a.rest, b); }
  }

  lemma {:induction false} AppendAssoc(a: Forest, b: Forest, c: Forest)
    ensures Append(Append(a, b), c) == Append(a, Append(b, c))
  {
    if a.Cons? { AppendAssoc(a.rest, b, c); }
  }

  lemma {:induction false} AppendNil(a: Forest)
    ensures Append(a, Nil) == a
  {
    if a.Cons? { AppendNil(a.rest); }
  }

  /** `a` with the first entry of `b`. */
  function Take(a: Forest, b: Forest): Forest
    requires b.Cons?
  {
    Append(a, Cons(b.id, b.kids, Nil))
  }

  lemma TakeShape(a: Forest, b: Forest)
    requires b.Cons?
    ensures Append(Take(a, b), b.rest) == Append(a, b)
    ensures Pre(Take(a, b)) == Pre(a) + ([b.id] + Pre(b.kids))
    ensures Pre(Take(a, b)) + Pre(b.rest) == Pre(a) + Pre(b)
  {
    var one := Cons(b.id, b.kids, Nil);
    AppendAssoc(a, one, b.rest);
    PreAppend(a, one);
    assert Append(one, b.rest) == b;
    assert Pre(one) == [b.id] + Pre(b.kids);
    assert Pre(b) == Pre(one) + Pre(b.rest);
  }

  /** An entry without children, before and after others are put below it. */
  lemma PreRegroup(f: Forest, a: Forest, b: Forest)
    requires f.Cons? && f.kids.Nil? && Pre(a) + Pre(b) == Pre(f.rest)
    ensures Pre(f) == [f.id] + Pre(f.rest) && Pre(Cons(f.id, a, b)) == Pre(f)
  {
    assert [f.id] + Pre(a) + Pre(b) == [f.id] + (Pre(a) + Pre(b));
  }

  /** Moving the children of an entry up beside it keeps the order. */
  lemma PreSplice(i: Id, k: Forest, r: Forest)
    ensures Pre(Cons(i, Nil, Append(k, r))) == Pre(Cons(i, k, r))
  {
    PreAppend(k, r);
    assert [i] + [] + (Pre(k) + Pre(r)) == [i] + Pre(k) + Pre(r);
  }

  lemma OnlyInTrans(h: Heap, g: Heap, k: Heap, s: seq<Id>, t: seq<Id>, all: seq<Id>)
    requires OnlyIn(h, g, s) && OnlyIn(g, k, t) && Covers(all, s) && Covers(all, t)
    ensures OnlyIn(h, k, all)
  {
  }

  ghost predicate Covers(all: seq<Id>, s: seq<Id>) {
    forall i :: i in s ==> i in all
  }

  /** Both directions from an entry, and when they lead nowhere. */
  lemma LinkedParts(h: Heap, p: Ptr, parent: Ptr, f: Forest)
    requires Linked(h, p, parent, f) && f.Cons?
    ensures f.id in h && p == Some(f.id) && h[f.id].parent == parent
    ensures Linked(h, h[f.id].list, Some(f.id), f.kids) && (h[f.id].list.None? <==> f.kids.Nil?)
    ensures Linked(h, h[f.id].next, parent, f.rest) && (h[f.id].next.None? <==> f.rest.Nil?)
    ensures f.kids.Cons? ==> f.kids.id in h && h[f.kids.id].parent == Some(f.id)
    ensures f.rest.Cons? ==> f.rest.id in h && h[f.rest.id].parent == parent
  {
  }

  /* ---------- the walk of conf_write ---------- */

  /** Where the walk still has to go when the current siblings are used up: for each enclosing entry
      the siblings after it. */
  datatype Context = Outside | Within(id: Id, rest: Forest, outer: Context)

  function PreContext(c: Context): seq<Id> {
    match c
    case Outside => []
    case Within(_, r, o) => Pre(r) + PreContext(o)
  }

  predicate Encloses(h: Heap, parent: Ptr, c: Context)
    decreases c
  {
    match c
    case Outside => parent == None
    case Within(i, r, o) =>
      && parent == Some(i) && i in h
      && Linked(h, h[i].next, h[i].parent, r) && Encloses(h, h[i].parent, o)
  }

  /** What the walk has left to visit from a position: the current siblings, then the context. */
  function Todo(f: Forest, c: Context): seq<Id> {
    Pre(f) + PreContext(c)
  }

  ghost predicate Position(h: Heap, m: Ptr, f: Forest, c: Context) {
    if m.None? then Todo(f, c) == []
    else m.value in h && f.Cons? && Linked(h, m, h[m.value].parent, f) && Encloses(h, h[m.value].parent, c)
  }

  lemma TodoParts(f: Forest, c: Context)
    requires f.Cons?
    ensures Todo(f, c) == [f.id] + Todo(f.kids, Within(f.id, f.rest, c))
    ensures f.kids.Nil? ==> Todo(f, c) == [f.id] + Todo(f.rest, c)
    ensures f.kids.Nil? && f.rest.Nil? ==> Todo(f, c) == [f.id] + PreContext(c)
  {
    var k, r, o := Pre(f.kids), Pre(f.rest), PreContext(c);
    assert [f.id] + k + r + o == [f.id] + (k + (r + o));
    if f.kids.Nil? { assert k + (r + o) == r + o; }
    if f.rest.Nil? { assert r + o == o; }
  }

  /** The inner loop: up until an enclosing entry has a sibling after it. */
  method Climb(h: Heap, start: Id, ghost c: Context)
    returns (m: Ptr, ghost f: Forest, ghost above: Context)
    requires start in h && Encloses(h, h[start].parent, c)
    ensures Todo(f, above) == PreContext(c) && Position(h, m, f, above)
  {
    m, f, above := h[start].parent, Nil, c;
    while m.Some?
      invariant f == Nil && Encloses(h, m, above) && PreContext(above) == PreContext(c)
      decreases above
    {
      var e := m.value;
      if h[e].next.Some? {
        m := h[e].next;
        f, above := above.rest, above.outer;
        return;
      }
      assert Pre(above.rest) == [];
      m := h[e].parent;
      above := above.outer;
    }
  }

  /** From an entry to its first child, its next sibling, or up. */
  method Advance(h: Heap, e: Id, ghost f: Forest, ghost c: Context)
    returns (m: Ptr, ghost f': Forest, ghost c': Context)
    requires Position(h, Some(e), f, c)
    ensures Position(h, m, f', c') && Todo(f, c) == [e] + Todo(f', c')
  {
    LinkedParts(h, Some(e), h[e].parent, f);
    TodoParts(f, c);
    if h[e].list.Some? {
      m, f', c' := h[e].list, f.kids, Within(e, f.rest, c);
    } else if h[e].next.Some? {
      m, f', c' := h[e].next, f.rest, c;
    } else {
      m, f', c' := Climb(h, e, c);
    }
  }

  /** `conf_write` visits every entry once, in the order they were written down, and stops. */
  method Walk(h: Heap, root: Id, ghost f: Forest) returns (visited: seq<Id>)
    requires root in h && h[root].next.None? && h[root].parent.None?
    requires Linked(h, h[root].list, Some(root), f)
    ensures visited == Pre(f)
  {
    var m := h[root].list;
    visited := [];
    ghost var here, c := f, Within(root, Nil, Outside);
    assert PreContext(c) == [] && Pre(f) + [] == Pre(f);
    while m.Some?
      invariant visited + Todo(here, c) == Pre(f) && Position(h, m, here, c)
      decreases |Todo(here, c)|
    {
      ghost var seen, todo := visited, Todo(here, c);
      visited := visited + [m.value];
      m, here, c := Advance(h, m.value, here, c);
      assert seen + todo == visited + Todo(here, c);
    }
  }
}
