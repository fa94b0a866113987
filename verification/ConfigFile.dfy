/** Reading and writing the configuration file: `sym_escape_string_value`, the in-place work of
    `conf_set_sym_val` and `conf_read_simple` on the line buffer, and the printing in `conf_write`. */
module ConfigFile {
  import opened Options
  import opened Exprs
  import opened ConfigText

  /* ---------- escaping ---------- */

  /** `strcspn(p, "\"\\")` as an index. */
  function NextSpecial(s: string, k: nat): (r: nat)
    requires k <= |s|
    ensures k <= r <= |s| && (r < |s| ==> Special(s[r])) && forall i :: k <= i < r ==> !Special(s[i])
    decreases |s| - k
  {
    if k == |s| || Special(s[k]) then k else NextSpecial(s, k + 1)
  }

  lemma {:induction false} EscapedConcat(a: string, b: string)
    ensures Escaped(a + b) == Escaped(a) + Escaped(b)
  {
    if a == "" {
      assert a + b == b;
    } else {
      EscapedConcat(a[1..], b);
      var h := if Special(a[0]) then ['\\', a[0]] else [a[0]];
      assert (a + b)[1..] == a[1..] + b && (a + b)[0] == a[0];
      assert h + (Escaped(a[1..]) + Escaped(b)) == (h + Escaped(a[1..])) + Escaped(b);
    }
  }

  lemma {:induction false} PlainEscaped(a: string)
    requires forall i :: 0 <= i < |a| ==> !Special(a[i])
    ensures Escaped(a) == a
  {
    if a != "" { PlainEscaped(a[1..]); }
  }

  /** One round of either loop: a run without special characters, then perhaps one of them. */
  lemma EscapedRun(s: string, p: nat, q: nat)
    requires p <= q <= |s| && forall i :: p <= i < q ==> !Special(s[i])
    ensures Escaped(s[..q]) == Escaped(s[..p]) + s[p..q]
    ensures q < |s| && Special(s[q]) ==> Escaped(s[..q + 1]) == Escaped(s[..q]) + ['\\', s[q]]
  {
    assert s[..q] == s[..p] + s[p..q];
    EscapedConcat(s[..p], s[p..q]);
    PlainEscaped(s[p..q]);
    if q < |s| && Special(s[q]) {
      assert s[..q + 1] == s[..q] + [s[q]];
      EscapedConcat(s[..q], [s[q]]);
      assert [s[q]][1..] == "";
    }
  }

  /** `sym_escape_string_value`: the buffer that is measured first is filled exactly. */
  method EscapeStringValue(s: string) returns (res: string, reslen: nat)
    ensures res == Quoted(s) && reslen == |res| + 1
  {
    hide Escaped;
    reslen := MeasureEscaped(s);
    res := "\"";
    assert s[..0] == "" && Escaped("") == "" by { EmptyEscaped(); }
    var p := 0;
    while true
      invariant 0 <= p <= |s| && res == "\"" + Escaped(s[..p])
      decreases |s| - p
    {
      var q := NextSpecial(s, p);
      EscapedRun(s, p, q);
      res := res + s[p..q];
      if q == |s| {
        break;
      }
      res := res + "\\" + [s[q]];
      p := q + 1;
    }
    assert s[..|s|] == s;
    res := res + "\"";
  }

  lemma EmptyEscaped()
    ensures Escaped("") == ""
  {
  }

  method MeasureEscaped(s: string) returns (reslen: nat)
    ensures reslen == |Escaped(s)| + 3
  {
    hide Escaped;
    reslen := |s| + 2 + 1;
    EmptyEscaped();
    assert s[..0] == "";
    var p := 0;
    while true
      invariant 0 <= p <= |s| && reslen == |Escaped(s[..p])| + |s| - p + 3
      decreases |s| - p
    {
      var q := NextSpecial(s, p);
      EscapedRun(s, p, q);
      p := q;
      if p == |s| {
        break;
      }
      reslen := reslen + 1;
      p := p + 1;
    }
    assert s[..|s|] == s;
  }

  /* ---------- unescaping in the line buffer ---------- */

  /** A string in a buffer: from `p` up to the NUL at `n`. */
  ghost predicate Holds(a: seq<char>, p: nat, n: nat) {
    p <= n < |a| && a[n] == '\0' && forall i :: p <= i < n ==> a[i] != '\0'
  }

  function Prepend(pre: string, r: Option<string>): Option<string> {
    if r.None? then None else Some(pre + r.value)
  }

  lemma PrependBefore(pre: string, c: char, r: Option<string>)
    ensures Prepend(pre, Before(c, r)) == Prepend(pre + [c], r)
  {
    if r.Some? { assert pre + ([c] + r.value) == pre + [c] + r.value; }
  }

  /** `memmove(p2, p2 + 1, strlen(p2))` */
  method DeleteAt(a: array<char>, q: nat, m: nat)
    requires q < m < a.Length
    modifies a
    ensures a[..q] == old(a[..q]) && a[q..m] == old(a[q + 1..m + 1]) && a[m..] == old(a[m..])
  {
    ghost var was := a[..];
    var i := q;
    while i < m
      invariant q <= i <= m
      invariant forall j :: 0 <= j < q ==> a[j] == was[j]
      invariant forall j :: q <= j < i ==> a[j] == was[j + 1]
      invariant forall j :: i <= j < a.Length ==> a[j] == was[j]
    {
      a[i] := a[i + 1];
      i := i + 1;
    }
    forall j | 0 <= j < m - q ensures a[q..m][j] == was[q + 1..m + 1][j] {
      assert a[q + j] == was[q + j + 1];
    }
    assert a[q..m] == was[q + 1..m + 1];
    assert a[..q] == was[..q] && a[m..] == was[m..];
  }

  /** Where the loop stands: `done` is unescaped, and the text from `q` to the NUL at `m` is to come;
      or a final backslash has been removed and `q` has moved past the end. */
  ghost predicate Scanning(t: string, a: seq<char>, p: nat, q: nat, m: nat) {
    if q <= m then Holds(a, p, m) && p <= q && Unescaped(t) == Prepend(a[p..q], Unescaped(a[q..m]))
    else q == m + 1 && q < |a| && a[q] == '\0' && Unescaped(t) == None
  }

  lemma ScanPlain(t: string, a: seq<char>, p: nat, q: nat, m: nat)
    requires Scanning(t, a, p, q, m) && q < m && !Special(a[q])
    ensures Scanning(t, a, p, q + 1, m)
  {
    assert a[q..m][1..] == a[q + 1..m];
    assert a[p..q + 1] == a[p..q] + [a[q]];
    PrependBefore(a[p..q], a[q], Unescaped(a[q + 1..m]));
  }

  lemma ScanQuote(t: string, a: seq<char>, p: nat, q: nat, m: nat)
    requires Scanning(t, a, p, q, m) && q < m && a[q] == '"'
    ensures Unescaped(t) == Some(a[p..q])
  {
    assert a[p..q] + "" == a[p..q];
  }

  lemma ScanEnd(t: string, a: seq<char>, p: nat, q: nat, m: nat)
    requires Scanning(t, a, p, q, m) && (q == m || q == m + 1)
    ensures Unescaped(t) == None
  {
  }

  lemma ScanBackslash(t: string, a: seq<char>, b: seq<char>, p: nat, q: nat, m: nat)
    requires Scanning(t, a, p, q, m) && q < m && a[q] == '\\' && |b| == |a|
    requires b[..q] == a[..q] && b[q..m] == a[q + 1..m + 1] && b[m..] == a[m..]
    ensures Scanning(t, b, p, q + 1, m - 1)
  {
    var u := a[q..m];
    assert b[p..q] == b[..q][p..] == a[..q][p..] == a[p..q];
    assert b[m] == b[m..][0] == '\0';
    if q + 1 < m {
      forall i | q <= i < m ensures b[i] == a[i + 1] { assert b[i] == b[q..m][i - q]; }
      assert u[2..] == b[q + 1..m - 1];
      assert b[p..q + 1] == a[p..q] + [a[q + 1]];
      forall i | p <= i < q ensures b[i] == a[i] { assert b[i] == b[..q][i]; }
      assert Holds(b, p, m - 1);
      assert Unescaped(u) == Before(u[1], Unescaped(u[2..]));
      PrependBefore(a[p..q], u[1], Unescaped(u[2..]));
    } else {
      assert |u| == 1;
    }
  }

  /** The loop of `conf_set_sym_val` over a quoted value. */
  method UnescapeInPlace(a: array<char>, p: nat, n: nat) returns (end: Option<nat>)
    requires Holds(a[..], p, n)
    modifies a
    ensures match end
            case None => Unescaped(old(a[p..n])) == None
            case Some(e) => p <= e < a.Length && a[e] == '\0' && Unescaped(old(a[p..n])) == Some(a[p..e])
  {
    hide Unescaped;
    ghost var t := a[p..n];
    var q: nat, m: nat := p, n;  // `m` is the terminator that `strlen` would find
    ScanStart(a[..], p, n);
    while a[q] != '\0'
      invariant q < a.Length && q <= m + 1 && p <= q && Scanning(t, a[..], p, q, m)
      decreases m + 1 - q
    {
      ScanBelow(t, a[..], p, q, m);
      if a[q] == '"' {
        ScanQuote(t, a[..], p, q, m);
        a[q] := '\0';
        return Some(q);
      }
      if a[q] == '\\' {
        ghost var was := a[..];
        DeleteAt(a, q, m);
        ScanBackslash(t, was, a[..], p, q, m);
        m := m - 1;
      } else {
        ScanPlain(t, a[..], p, q, m);
      }
      q := q + 1;
    }
    ScanStop(t, a[..], p, q, m);
    return None;
  }

  lemma ScanStart(a: seq<char>, p: nat, n: nat)
    requires Holds(a, p, n)
    ensures n < |a| && Scanning(a[p..n], a, p, p, n)
  {
    assert a[p..p] == "";
    var r := Unescaped(a[p..n]);
    if r.Some? { assert "" + r.value == r.value; }
  }

  /** A character that is not NUL is inside the string. */
  lemma ScanBelow(t: string, a: seq<char>, p: nat, q: nat, m: nat)
    requires Scanning(t, a, p, q, m) && q < |a| && a[q] != '\0'
    ensures q < m < |a|
  {
  }

  lemma ScanStop(t: string, a: seq<char>, p: nat, q: nat, m: nat)
    requires Scanning(t, a, p, q, m) && q < |a| && a[q] == '\0' && p <= q
    ensures Unescaped(t) == None
  {
    ScanEnd(t, a, p, q, m);
  }

  /* ---------- lines ---------- */

  /** `strchr` */
  method IndexOf(a: array<char>, c: char, k: nat, n: nat) returns (r: nat)
    requires k <= n <= a.Length
    ensures r == Find(a[..n], c, k)
  {
    r := k;
    while r < n && a[r] != c
      invariant k <= r <= n && Find(a[..n], c, k) == Find(a[..n], c, r)
    {
      r := r + 1;
    }
  }

  lemma SliceOfPrefix(s: seq<char>, n: nat, i: nat, j: nat)
    requires i <= j <= n <= |s|
    ensures s[..n][i..j] == s[i..j]
  {
  }

  class Reader {
    const types: Types
    var def: Defs

    constructor (t: Types)
      ensures types == t && def == map[]
    {
      types, def := t, map[];
    }

    /** `conf_set_sym_val`: the value from `p` on, set for the symbol unless it is invalid. */
    method SetSymVal(name: string, a: array<char>, p: nat, n: nat)
      requires name in types && Holds(a[..], p, n)
      modifies this`def, a
      ensures def == Apply(types, old(def), Assign(name, old(a[p..n])))
    {
      hide Unescaped;
      ghost var v := a[p..n];
      match types[name] {
        case Unknown =>
        case StringType =>
          if a[p] == '"' {
            assert v == ['"'] + a[p + 1..n] && v[1..] == a[p + 1..n];
            var end := UnescapeInPlace(a, p + 1, n);
            if end.Some? {
              def := def[name := Text(a[p + 1..end.value])];
            }
          }
        case IntType =>
          if IntValid(a[p..n]) {
            def := def[name := Text(a[p..n])];
          }
        case HexType =>
          if HexValid(a[p..n]) {
            def := def[name := Text(a[p..n])];
          }
        case _ =>
          SetTri(name, a[p], v);
      }
    }

    method SetTri(name: string, c: char, ghost v: string)
      requires name in types && (types[name] == Boolean || types[name] == TristateType)
      requires '\0' !in v && c == (if v == "" then '\0' else v[0])
      modifies this`def
      ensures def == Apply(types, old(def), Assign(name, v))
    {
      if types[name] == TristateType && c == 'm' {
        def := def[name := Tri(Mod)];
      } else if c == 'y' {
        def := def[name := Tri(Yes)];
      } else if c == 'n' {
        def := def[name := Tri(No)];
      }
    }

    /** One line of `conf_read_simple`, taken apart by writing NUL characters into it. */
    method ReadLine(a: array<char>, n: nat)
      requires Holds(a[..], 0, n)
      modifies this`def, a
      ensures def == Apply(types, old(def), ParseLine(old(a[..n])))
    {
      ghost var line := a[..n];
      if a[0] == '#' {
        ReadComment(a, n);
      } else if n >= 7 && a[..7] == PREFIX {
        assert line[..7] == a[..7];
        ReadAssignment(a, n);
      } else {
        assert n >= 7 ==> line[..7] == a[..7];
      }
    }

    method ReadComment(a: array<char>, n: nat)
      requires Holds(a[..], 0, n)
      modifies this`def, a
      ensures def == Apply(types, old(def), ParseComment(old(a[..n])))
    {
      hide Find;
      ghost var line := a[..n];
      if n < 9 || a[2..9] != PREFIX {
        assert n >= 9 ==> line[2..9] == a[2..9];
        return;
      }
      assert line[2..9] == a[2..9];
      var k := IndexOf(a, ' ', 9, n);
      if k == n {
        return;
      }
      var name, p := a[9..k], a[k + 1..n];
      SliceOfPrefix(a[..], n, 9, k);
      SliceOfPrefix(a[..], n, k + 1, n);
      assert name == line[9..k] && p == line[k + 1..];
      a[k] := '\0';
      if !("is not set" <= p) || name !in types {
        return;
      }
      if types[name] == Boolean || types[name] == TristateType {
        def := def[name := Tri(No)];
      }
    }

    method ReadAssignment(a: array<char>, n: nat)
      requires Holds(a[..], 0, n) && n >= 7
      modifies this`def, a
      ensures def == Apply(types, old(def), ParseAssignment(old(a[..n])))
    {
      hide Find, SetVal, Chomp;
      ghost var line := a[..n];
      var k := IndexOf(a, '=', 7, n);
      if k == n {
        return;
      }
      var name := a[7..k];
      ghost var v := a[k + 1..n];
      SliceOfPrefix(a[..], n, 7, k);
      SliceOfPrefix(a[..], n, k + 1, n);
      assert name == line[7..k] && v == line[k + 1..];
      a[k] := '\0';
      assert a[k + 1..n] == v;
      var m := CutNewline(a, k + 1, n);
      if name in types {
        SetSymVal(name, a, k + 1, m);
      }
    }

    /** End the value at the newline, or before a carriage return that precedes it. */
    method CutNewline(a: array<char>, p: nat, n: nat) returns (m: nat)
      requires 0 < p <= n && Holds(a[..], p, n) && a[p - 1] == '\0'
      modifies a
      ensures Holds(a[..], p, m) && a[p..m] == Chomp(old(a[p..n]))
    {
      hide Find;
      ghost var v := a[p..n];
      m := IndexOf(a, '\n', p, n);
      FindShift(a[..n], v, '\n', p, 0);
      assert a[p..m] == v[..m - p] && (m > p ==> a[m - 1] == v[m - p - 1] && a[p..m - 1] == v[..m - p - 1]);
      if m < n {
        a[m] := '\0';
        if a[m - 1] == '\r' {
          m := m - 1;
          a[m] := '\0';
        }
      }
    }
  }

  lemma {:induction false} FindShift(s: string, v: string, c: char, p: nat, k: nat)
    requires p + k <= |s| && v == s[p..]
    ensures Find(s, c, p + k) == p + Find(v, c, k)
    decreases |s| - p - k
  {
    if p + k < |s| && s[p + k] != c { FindShift(s, v, c, p, k + 1); }
  }

  /** `compat_getline`: the next line of the text, with its newline if it has one. */
  method GetLine(text: string, pos: nat) returns (line: string)
    requires pos < |text|
    ensures line != "" && pos + |line| <= |text| && Lines(text[pos..]) == [line] + Lines(text[pos + |line|..])
  {
    hide Lines;
    var k := pos;
    while k < |text| && text[k] != '\n'
      invariant pos <= k <= |text| && forall i :: pos <= i < k ==> text[i] != '\n'
    {
      k := k + 1;
    }
    NextLine(text, pos, k);
    if k < |text| {
      k := k + 1;
    }
    line := text[pos..k];
  }

  lemma NextLine(text: string, pos: nat, k: nat)
    requires pos <= k <= |text| && pos < |text| && forall i :: pos <= i < k ==> text[i] != '\n'
    ensures k < |text| && text[k] == '\n' ==> Lines(text[pos..]) == [text[pos..k + 1]] + Lines(text[k + 1..])
    ensures k == |text| ==> Lines(text[pos..]) == [text[pos..k]] + Lines(text[k..])
  {
    hide Find;
    var rest, n := text[pos..], k - pos;
    assert forall i :: 0 <= i < n ==> rest[i] == text[pos + i];
    if k < |text| && text[k] == '\n' {
      FindIs(rest, '\n', 0, n);
      assert rest[..n + 1] == text[pos..k + 1] && rest[n + 1..] == text[k + 1..];
    } else if k == |text| {
      assert Find(rest, '\n', 0) == |rest|;
      assert rest == text[pos..k] && text[k..] == "";
      assert [rest] + Lines("") == [rest];
    }
  }

  /** `conf_read_simple` for user values. */
  method ReadConfig(types: Types, text: string) returns (def: Defs)
    requires '\0' !in text
    ensures def == ReadLines(types, map[], Lines(text))
  {
    hide Lines, Apply, ParseLine;
    var r := new Reader(types);
    var pos := 0;
    assert text[0..] == text;
    while pos < |text|
      invariant 0 <= pos <= |text| && fresh(r) && r.types == types
      invariant ReadLines(types, r.def, Lines(text[pos..])) == ReadLines(types, map[], Lines(text))
    {
      var line := GetLine(text, pos);
      ghost var rest := Lines(text[pos + |line|..]);
      assert ([line] + rest)[1..] == rest;
      LineClean(text, pos, line);
      var a := Buffer(line);
      r.ReadLine(a, |line|);
      pos := pos + |line|;
    }
    assert text[pos..] == "";
    NothingToRead(types, r.def);
    def := r.def;
  }

  lemma LineClean(text: string, pos: nat, line: string)
    requires '\0' !in text && pos + |line| <= |text|
    requires Lines(text[pos..]) == [line] + Lines(text[pos + |line|..])
    ensures '\0' !in line
  {
    var rest := text[pos..];
    assert Lines(rest)[0] == line;
    assert line <= rest;
    forall i | 0 <= i < |line| ensures line[i] != '\0' {
      assert line[i] == rest[i] == text[pos + i];
    }
  }

  /** The line in a buffer of its own, with the terminator. */
  method Buffer(line: string) returns (a: array<char>)
    requires '\0' !in line
    ensures fresh(a) && a.Length == |line| + 1 && a[..|line|] == line && Holds(a[..], 0, |line|)
  {
    a := new char[|line| + 1](i => '\0');
    forall i | 0 <= i < |line| {
      a[i] := line[i];
    }
  }

  /* ---------- writing ---------- */

  lemma {:induction false} PrintAllAppend(types: Types, items: seq<Item>, x: Item)
    requires Printable(types, items) && IsName(x.name) && x.name in types && Fits(types[x.name], x.value)
    ensures Printable(types, items + [x])
    ensures PrintAll(types, items + [x]) == PrintAll(types, items) + PrintLine(x.name, types[x.name], x.value)
    decreases |items|
  {
    hide PrintLine;
    assert [x][0] == x;
    if items == [] {
      assert items + [x] == [x] && PrintAll(types, [x][1..]) == "";
    } else {
      assert Printable(types, items[1..]) && (items + [x])[1..] == items[1..] + [x];
      PrintAllAppend(types, items[1..], x);
    }
  }

  /** The loop of `conf_write` over the symbols met on the walk. A symbol defined in several places is
      met several times; clearing its flag keeps it from being written twice. */
  method WriteSymbols(types: Types, met: seq<string>, flagged: set<string>, value: map<string, UserValue>)
    returns (text: string, ghost items: seq<Item>)
    requires forall name :: name in flagged ==>
               IsName(name) && name in types && name in value && Fits(types[name], value[name])
    ensures Printable(types, items) && DistinctNames(items) && text == PrintAll(types, items)
    ensures forall i :: 0 <= i < |items| ==>
              items[i].name in met && items[i].name in flagged && items[i].value == value[items[i].name]
    ensures forall name :: name in met && name in flagged ==> name in value && Item(name, value[name]) in items
  {
    hide PrintLine, Fits, IsName;
    text, items := "", [];
    var write := flagged;
    var k := 0;
    while k < |met|
      invariant 0 <= k <= |met| && write <= flagged
      invariant Printable(types, items) && DistinctNames(items) && text == PrintAll(types, items)
      invariant forall i :: 0 <= i < |items| ==> items[i].name in met && items[i].name in flagged
      invariant forall i :: 0 <= i < |items| ==> items[i].name !in write && items[i].value == value[items[i].name]
      invariant forall name :: name in flagged ==> name in write || Item(name, value[name]) in items
      invariant forall j :: 0 <= j < k ==> met[j] !in write
    {
      var name := met[k];
      if name in write {
        write := write - {name};
        var x := Item(name, value[name]);
        PrintAllAppend(types, items, x);
        var line := PrintSymbol(name, types[name], value[name]);
        text := text + line;
        items := items + [x];
      }
      k := k + 1;
    }
  }

  /** `conf_write_symbol` with `kconfig_print_symbol` */
  method PrintSymbol(name: string, t: SymType, v: UserValue) returns (line: string)
    requires Fits(t, v)
    ensures line == PrintLine(name, t, v)
  {
    var str;
    if t == StringType {
      var n;
      str, n := EscapeStringValue(v.text);
    } else {
      str := Shown(v, t);
    }
    if v == Tri(No) {
      return "# CONFIG_" + name + " is not set\n";
    }
    line := PREFIX + name + "=" + str + "\n";
  }

  /* ---------- there and back ---------- */

  predicate NoNul(v: UserValue) {
    v.Text? ==> '\0' !in v.text
  }

  lemma LineNoNul(name: string, t: SymType, v: UserValue)
    requires IsName(name) && Fits(t, v) && NoNul(v)
    ensures '\0' !in PrintLine(name, t, v)
  {
    hide Escaped, IntValid, HexValid;
    assert '\0' !in name;
    if v.Text? { EscapedKeeps(v.text, '\0'); }
  }

  lemma {:induction false} FileNoNul(types: Types, items: seq<Item>)
    requires Printable(types, items) && forall i :: 0 <= i < |items| ==> NoNul(items[i].value)
    ensures '\0' !in PrintAll(types, items)
    decreases |items|
  {
    hide PrintLine;
    if items != [] {
      LineNoNul(items[0].name, types[items[0].name], items[0].value);
      FileNoNul(types, items[1..]);
    }
  }

  /** A configuration that is written and read again: every flagged symbol met on the walk has its
      value back, and nothing else is set. */
  method WriteThenRead(types: Types, met: seq<string>, flagged: set<string>, value: map<string,
                       UserValue>) returns (def: Defs)
    requires forall name :: name in flagged ==>
               IsName(name) && name in types && name in value && Fits(types[name], value[name]) && NoNul(value[name])
    ensures forall name :: name in def <==> name in met && name in flagged
    ensures forall name :: name in def ==> def[name] == value[name]
  {
    hide PrintAll, ReadLines, Fits, IsName, NoNul;
    var text;
    ghost var items;
    text, items := WriteSymbols(types, met, flagged, value);
    FileNoNul(types, items);
    ValuesRestored(types, items);
    def := ReadConfig(types, text);
    forall name | name in met && name in flagged ensures name in def && def[name] == value[name] {
      var i :| 0 <= i < |items| && items[i] == Item(name, value[name]);
    }
  }
}
