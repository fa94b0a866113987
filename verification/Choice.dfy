/** Boolean choice groups: `sym_calc_choice`, `sym_choice_default`, and how the choice and its members
    take their values from each other in `sym_calc_value` and `sym_set_tristate_value`. */
module Choice {
  import opened Options
  import opened Exprs

  /** One default of the choice: its condition and the member it names. */
  datatype ChoiceDefault = ChoiceDefault(cond: Tristate, target: nat)

  /** What the symbols outside the group contribute: the condition of the choice's prompt, and for each
      member what its prompt and its default ask for besides the choice being set. */
  datatype Outside = Outside(prompt: Tristate, own: seq<Tristate>, dflt: seq<Tristate>, defaults: seq<ChoiceDefault>)

  predicate Proper(o: Outside) {
    |o.own| == |o.dflt| && forall i :: 0 <= i < |o.defaults| ==> o.defaults[i].target < |o.own|
  }

  predicate Shown(o: Outside, i: nat) {
    i < |o.own| && o.own[i] != No
  }

  /** The first default that applies and names a visible member, from index `n` on. */
  function FirstDefault(o: Outside, n: nat): (r: Option<nat>)
    requires n <= |o.defaults|
    ensures r.Some? ==> Shown(o, r.value)
    decreases |o.defaults| - n
  {
    if n == |o.defaults| then None
    else if o.defaults[n].cond != No && Shown(o, o.defaults[n].target) then Some(o.defaults[n].target)
    else FirstDefault(o, n + 1)
  }

  /** The first visible member from `n` on. */
  function FirstShown(o: Outside, n: nat): (r: Option<nat>)
    requires n <= |o.own|
    ensures r.Some? ==> Shown(o, r.value)
    ensures r.None? ==> forall i :: n <= i < |o.own| ==> !Shown(o, i)
    decreases |o.own| - n
  {
    if n == |o.own| then None else if Shown(o, n) then Some(n) else FirstShown(o, n + 1)
  }

  /** The member a choice that is set settles on. */
  function Pick(o: Outside, user: Option<nat>): (r: Option<nat>)
    ensures r.Some? ==> Shown(o, r.value)
    ensures r.None? <==> forall i :: 0 <= i < |o.own| ==> !Shown(o, i)
    ensures user.Some? && Shown(o, user.value) ==> r == user
  {
    if user.Some? && Shown(o, user.value) then user
    else if FirstDefault(o, 0).Some? then FirstDefault(o, 0)
    else FirstShown(o, 0)
  }

  /** Default `n` of the choice applies and names a visible member. */
  predicate Offers(o: Outside, n: nat) {
    n < |o.defaults| && o.defaults[n].cond != No && Shown(o, o.defaults[n].target)
  }

  lemma {:induction false} FirstDefaultIs(o: Outside, m: nat, n: nat)
    requires m <= |o.defaults| && forall j :: m <= j < n ==> !Offers(o, j)
    ensures m <= n && Offers(o, n) ==> FirstDefault(o, m) == Some(o.defaults[n].target)
    ensures n >= |o.defaults| ==> FirstDefault(o, m) == None
    decreases |o.defaults| - m
  {
    if m < |o.defaults| && m < n {
      assert !Offers(o, m);
      FirstDefaultIs(o, m + 1, n);
    }
  }

  lemma {:induction false} FirstShownIs(o: Outside, m: nat, k: nat)
    requires m <= k && Shown(o, k) && forall i :: m <= i < k ==> !Shown(o, i)
    ensures FirstShown(o, m) == Some(k)
    decreases k - m
  {
    if m < k { FirstShownIs(o, m + 1, k); }
  }

  /** Without a visible pick of the user: the target of the first default that applies and names a visible member, and
      without one the first visible member. */
  lemma PickLaw(o: Outside, user: Option<nat>, n: nat, k: nat)
    requires user.Some? ==> !Shown(o, user.value)
    ensures Offers(o, n) && (forall j :: 0 <= j < n ==> !Offers(o, j)) ==> Pick(o, user) == Some(o.defaults[n].target)
    ensures (forall j :: 0 <= j < |o.defaults| ==> !Offers(o, j)) && Shown(o, k) &&
            (forall i :: 0 <= i < k ==> !Shown(o, i)) ==>
              Pick(o, user) == Some(k)
  {
    if Offers(o, n) && (forall j :: 0 <= j < n ==> !Offers(o, j)) { FirstDefaultIs(o, 0, n); }
    if forall j :: 0 <= j < |o.defaults| ==> !Offers(o, j) {
      FirstDefaultIs(o, 0, |o.defaults|);
      if Shown(o, k) && forall i :: 0 <= i < k ==> !Shown(o, i) { FirstShownIs(o, 0, k); }
    }
  }

  /** The value of a choice that cannot be left unset. */
  function ChoiceTri(o: Outside): Tristate {
    if o.prompt != No && Pick(o, None).Some? then Yes else No
  }

  function Chosen(o: Outside, user: Option<nat>): Option<nat> {
    if ChoiceTri(o) == Yes then Pick(o, user) else None
  }

  function MemberTri(o: Outside, user: Option<nat>, i: nat): Tristate
    requires i < |o.own| == |o.dflt|
  {
    if ChoiceTri(o) == No then No
    else if Shown(o, i) then Truth(Pick(o, user) == Some(i))
    else Promote(o.dflt[i])
  }

  /** Member `i` is the only one that is set. */
  ghost predicate OnlySet(o: Outside, user: Option<nat>, i: nat) {
    && Proper(o) && i < |o.own|
    && forall j :: 0 <= j < |o.own| ==> (MemberTri(o, user, j) == Yes <==> j == i)
  }

  /** No member that is out of sight is set by a default of its own. */
  predicate QuietMembers(o: Outside)
    requires Proper(o)
  {
    forall i :: 0 <= i < |o.own| && !Shown(o, i) ==> o.dflt[i] == No
  }

  /** In a visible choice with a visible member exactly one member is set, and that one is visible, if
      and only if no hidden member carries an active default, which the parser warns about. */
  lemma ExactlyOne(o: Outside, user: Option<nat>)
    requires Proper(o) && o.prompt != No && exists i :: Shown(o, i)
    ensures (exists i :: OnlySet(o, user, i)) <==> QuietMembers(o)
    ensures var p := Pick(o, user);
            && p.Some? && Shown(o, p.value) && MemberTri(o, user, p.value) == Yes
            && (QuietMembers(o) ==> OnlySet(o, user, p.value))
  {
    var k :| Shown(o, k);
    var p := Pick(o, user).value;
    assert MemberTri(o, user, p) == Yes;
    if QuietMembers(o) {
      assert OnlySet(o, user, p);
    } else {
      var i :| 0 <= i < |o.own| && !Shown(o, i) && o.dflt[i] != No;
      assert MemberTri(o, user, i) == Yes && i != p;
    }
  }

  /** A choice that is not shown, or has no visible member, sets none of them. */
  lemma NothingSet(o: Outside, user: Option<nat>, i: nat)
    requires Proper(o) && i < |o.own| && (o.prompt == No || forall j :: 0 <= j < |o.own| ==> o.own[j] == No)
    ensures MemberTri(o, user, i) == No && Chosen(o, user) == None
  {
  }

  /** Without that condition: the hidden second member is set by its own default beside the visible first one. */
  lemma TwoSet(user: Option<nat>)
    ensures var o := Outside(Yes, [Yes, No], [No, Yes], []);
            && Proper(o) && Shown(o, 0) && !Shown(o, 1) && !QuietMembers(o)
            && MemberTri(o, user, 0) == Yes && MemberTri(o, user, 1) == Yes
  {
    var o := Outside(Yes, [Yes, No], [No, Yes], []);
    assert Shown(o, 0) && !Shown(o, 1) && o.dflt[1] == Yes;
    var p := Pick(o, user);
    assert p.Some? && Shown(o, p.value);
  }

  /* ---------- the cached evaluation ---------- */

  datatype Cell = Cell(valid: bool, tri: Tristate, visible: Tristate, def: bool)

  datatype Head = Head(valid: bool, tri: Tristate, val: Option<nat>, visible: Tristate, def: bool,
                       defTri: Tristate, defVal: Option<nat>)

  function MemberVisible(o: Outside, tri: Tristate, i: nat): Tristate
    requires i < |o.own|
  {
    Promote(AndT(tri, o.own[i]))
  }

  /** What the user picked is a member. */
  predicate UserInRange(o: Outside, h: Head) {
    h.defVal.Some? ==> h.defVal.value < |o.own|
  }

  ghost predicate HeadSettled(o: Outside, h: Head) {
    h.valid ==> h.tri == ChoiceTri(o) && h.val == Chosen(o, h.defVal)
  }

  ghost predicate CellSettled(o: Outside, h: Head, c: Cell, i: nat) {
    i < |o.own| == |o.dflt| && (c.valid ==>
      h.valid && c.visible == MemberVisible(o, ChoiceTri(o), i) && c.tri == MemberTri(o, h.defVal, i))
  }

  /** Whatever is marked valid is right, except for members still being computed. */
  ghost predicate Settled(o: Outside, h: Head, cells: seq<Cell>, busy: set<nat>) {
    && Proper(o) && |cells| == |o.own| && HeadSettled(o, h) && UserInRange(o, h)
    && forall i :: 0 <= i < |cells| && i !in busy ==> CellSettled(o, h, cells[i], i)
  }

  /** Only what was seen of the members may have changed. */
  ghost predicate SameBut(a: seq<Cell>, b: seq<Cell>) {
    |a| == |b| && forall i :: 0 <= i < |a| ==> b[i] == a[i].(visible := b[i].visible)
  }

  class Group {
    const o: Outside
    var head: Head
    var cells: seq<Cell>

    constructor (outside: Outside)
      requires Proper(outside)
      ensures o == outside && Idle({}) && head.defVal == None
    {
      o := outside;
      head := Head(false, No, None, No, true, No, None);
      cells := seq(|outside.own|, i => Cell(false, No, No, false));
    }

    ghost predicate Idle(busy: set<nat>)
      reads this
    {
      Settled(o, head, cells, busy)
    }

    /** `sym_calc_value` of the choice symbol. */
    method CalcChoice(ghost busy: set<nat>)
      requires head.valid || Idle(busy)
      modifies this
      ensures old(head.valid) ==> head == old(head) && cells == old(cells)
      ensures !old(head.valid) ==> Idle(busy)
      ensures head.valid && head.defVal == old(head.defVal) && SameBut(old(cells), cells)
      decreases !head.valid, 0
    {
      if head.valid {
        return;
      }
      head := head.(valid := true, visible := Promote(o.prompt));
      var rev := Promote(AndT(o.prompt, Mod));
      var tri := No;
      if head.visible != No && head.def {
        tri := AndT(head.defTri, head.visible);
      }
      tri := Promote(OrT(tri, rev));
      head := head.(tri := tri, val := None);
      if tri == Yes {
        CalcPick();
      }
    }

    /** `sym_calc_choice`: look at every member, then take the user's pick, a default or the first one. */
    method CalcPick()
      requires Proper(o) && |cells| == |o.own| && head.valid && head.tri == Yes && UserInRange(o, head)
      modifies this
      ensures SameBut(old(cells), cells)
      ensures head == old(head).(val := Pick(o, head.defVal), def := head.def, tri := Truth(Pick(o, head.defVal).Some?))
      ensures head.def <==> old(head.def) && forall j :: 0 <= j < |cells| && o.own[j] != No ==> old(cells)[j].def
      decreases false, 2
    {
      var def := head.def;
      var i := 0;
      while i < |cells|
        invariant 0 <= i <= |cells| && SameBut(old(cells), cells) && head == old(head)
        invariant forall j :: 0 <= j < i ==> cells[j].visible == Promote(o.own[j])
        invariant def <==> old(head.def) && forall j :: 0 <= j < i && o.own[j] != No ==> old(cells)[j].def
      {
        CalcVisibility(i, {});
        if cells[i].visible != No {
          def := def && cells[i].def;
        }
        i := i + 1;
      }
      head := head.(def := def);
      var pick := head.defVal;
      if pick.None? || cells[pick.value].visible == No {
        pick := DefaultMember();
      }
      head := head.(val := pick);
      if pick.None? {
        head := head.(tri := No);
      }
    }

    /** `sym_choice_default` */
    method DefaultMember() returns (pick: Option<nat>)
      requires Proper(o) && |cells| == |o.own|
      requires forall j :: 0 <= j < |cells| ==> cells[j].visible == Promote(o.own[j])
      ensures pick == Pick(o, None)
    {
      var n := 0;
      while n < |o.defaults|
        invariant 0 <= n <= |o.defaults| && FirstDefault(o, 0) == FirstDefault(o, n)
      {
        var d := o.defaults[n];
        if d.cond != No && cells[d.target].visible != No {
          return Some(d.target);
        }
        n := n + 1;
      }
      var i := 0;
      while i < |cells|
        invariant 0 <= i <= |cells| && FirstShown(o, 0) == FirstShown(o, i)
      {
        if cells[i].visible != No {
          return Some(i);
        }
        i := i + 1;
      }
      return None;
    }

    /** `sym_calc_visibility` of a member: its prompt depends on the choice, which is calculated first. */
    method CalcVisibility(i: nat, ghost busy: set<nat>)
      requires i < |cells| == |o.own| && (head.valid || Idle(busy))
      modifies this
      ensures head.valid && head.defVal == old(head.defVal) && SameBut(old(cells), cells)
      ensures cells[i].visible == MemberVisible(o, head.tri, i)
      ensures old(head.valid) ==> head == old(head) && cells == old(cells)[i := cells[i]]
      ensures !old(head.valid) && i in busy ==> Idle(busy)
      decreases !head.valid, 1
    {
      CalcChoice(busy);
      cells := cells[i := cells[i].(visible := Promote(AndT(head.tri, o.own[i])))];
    }

    /** `sym_calc_value` of a member. */
    method CalcMember(i: nat)
      requires Idle({}) && i < |cells|
      modifies this
      ensures Idle({}) && head.defVal == old(head.defVal) && |cells| == old(|cells|)
      ensures cells[i].valid && forall j :: 0 <= j < |cells| && old(cells)[j].valid ==> cells[j].valid
    {
      if cells[i].valid {
        return;
      }
      cells := cells[i := cells[i].(valid := true)];
      CalcVisibility(i, {i});
      var tri := No;
      if cells[i].visible == Yes {
        tri := Truth(head.val == Some(i));
      } else {
        tri := Promote(AndT(head.tri, o.dflt[i]));
      }
      cells := cells[i := cells[i].(tri := tri)];
    }

    /** Calculate any members, in any order. */
    method CalcAll(order: seq<nat>)
      requires Idle({}) && forall n :: 0 <= n < |order| ==> order[n] < |cells|
      modifies this
      ensures Idle({}) && head.defVal == old(head.defVal) && |cells| == old(|cells|)
      ensures forall n :: 0 <= n < |order| ==>
                cells[order[n]].valid && cells[order[n]].tri == MemberTri(o, head.defVal, order[n])
    {
      var n := 0;
      while n < |order|
        invariant 0 <= n <= |order| && Idle({}) && head.defVal == old(head.defVal) && |cells| == old(|cells|)
        invariant forall k :: 0 <= k < n ==> cells[order[k]].valid
      {
        CalcMember(order[n]);
        n := n + 1;
      }
    }

    /** `sym_set_tristate_value(member, yes)` for a member that has been calculated. */
    method SetYes(i: nat) returns (ok: bool)
      requires Idle({}) && i < |cells| && cells[i].valid
      modifies this
      ensures ok <==> old(cells[i].tri) == Yes || old(cells[i].visible) == Yes
      ensures !ok ==> head == old(head) && cells == old(cells)
      ensures ok ==> head.defVal == Some(i) && head.def && |cells| == |old(cells)|
      ensures ok ==> forall j :: 0 <= j < |cells| ==>
                (cells[j].def <==> old(cells)[j].def || old(cells)[j].visible != No || j == i)
      ensures ok && old(cells[i].visible) == Yes ==> Idle({}) && Chosen(o, head.defVal) == Some(i)
      ensures ok && old(cells[i].visible) == Yes && QuietMembers(o) ==> OnlySet(o, head.defVal, i)
    {
      var c := cells[i];
      if c.tri != Yes && c.visible != Yes {
        return false;
      }
      cells := cells[i := c.(def := true)];
      head := head.(defVal := Some(i), def := true);
      var j := 0;
      while j < |cells|
        invariant 0 <= j <= |cells| == |old(cells)| && head == old(head).(defVal := Some(i), def := true)
        invariant forall k :: 0 <= k < |cells| ==> cells[k] == old(cells)[k].(def := cells[k].def)
        invariant forall k :: 0 <= k < |cells| ==>
                    (cells[k].def <==> old(cells)[k].def || k == i || (k < j && old(cells)[k].visible != No))
      {
        if cells[j].visible != No {
          cells := cells[j := cells[j].(def := true)];
        }
        j := j + 1;
      }
      if c.tri != Yes {
        Clear();
      }
      if c.visible == Yes {
        assert CellSettled(o, old(head), old(cells)[i], i);
        assert Shown(o, i);
        if QuietMembers(o) { ExactlyOne(o, Some(i)); }
      }
      return true;
    }

    /** `sym_clear_all_valid` */
    method Clear()
      requires Proper(o) && |cells| == |o.own| && UserInRange(o, head)
      modifies this
      ensures Idle({}) && head == old(head).(valid := false) && |cells| == |old(cells)|
      ensures forall k :: 0 <= k < |cells| ==> cells[k] == old(cells)[k].(valid := false)
    {
      head := head.(valid := false);
      var was := cells;
      cells := seq(|was|, k requires 0 <= k < |was| => was[k].(valid := false));
    }
  }
}
