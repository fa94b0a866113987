/** The text of a configuration file: what is printed for a symbol, how a line is taken apart, and
    why the second undoes the first. A text holds no NUL character. */
module ConfigText {
  import opened Options
  import opened Exprs

  /* ---------- quoting ---------- */

  predicate Special(c: char) {
    c == '"' || c == '\\'
  }

  /** Quotes and backslashes get a backslash before them. */
  function Escaped(s: string): string {
    if s == "" then "" else (if Special(s[0]) then ['\\', s[0]] else [s[0]]) + Escaped(s[1..])
  }

  function Quoted(s: string): string {
    "\"" + Escaped(s) + "\""
  }

  /** The text up to the closing quote; without one there is none. */
  function Unescaped(t: string): Option<string> {
    if t == "" then None
    else if t[0] == '"' then Some("")
    else if t[0] == '\\' then (if |t| == 1 then None else Before(t[1], Unescaped(t[2..])))
    else Before(t[0], Unescaped(t[1..]))
  }

  function Before(c: char, r: Option<string>): Option<string> {
    if r.None? then None else Some([c] + r.value)
  }

  lemma {:induction false} UnescapeUndoes(s: string, rest: string)
    ensures Unescaped(Escaped(s) + "\"" + rest) == Some(s)
  {
    var t := Escaped(s) + "\"" + rest;
    if s == "" {
      assert t[0] == '"';
    } else {
      UnescapeUndoes(s[1..], rest);
      assert s == [s[0]] + s[1..];
      var u := Escaped(s[1..]) + "\"" + rest;
      if Special(s[0]) {
        assert t == ['\\', s[0]] + u;
        assert t[2..] == u;
      } else {
        assert t == [s[0]] + u;
        assert t[1..] == u;
      }
    }
  }

  lemma {:induction false} EscapedKeeps(s: string, c: char)
    requires c != '\\'
    ensures c in Escaped(s) <==> c in s
  {
    if s != "" { EscapedKeeps(s[1..], c); }
  }

  /* ---------- values ---------- */

  datatype UserValue = Tri(tri: Tristate) | Text(text: string)

  predicate Digit(c: char) {
    '0' <= c <= '9'
  }

  predicate HexDigit(c: char) {
    Digit(c) || 'a' <= c <= 'f' || 'A' <= c <= 'F'
  }

  predicate AllDigits(s: string) {
    forall i :: 0 <= i < |s| ==> Digit(s[i])
  }

  predicate AllHexDigits(s: string) {
    forall i :: 0 <= i < |s| ==> HexDigit(s[i])
  }

  /** `sym_string_valid` for S_INT: an optional sign, and no leading zero. */
  predicate IntValid(s: string) {
    var d := if |s| > 0 && s[0] == '-' then s[1..] else s;
    |d| > 0 && AllDigits(d) && (d[0] == '0' ==> |d| == 1)
  }

  /** For S_HEX: digits, with or without the prefix. */
  predicate HexValid(s: string) {
    var d := if |s| > 1 && s[0] == '0' && (s[1] == 'x' || s[1] == 'X') then s[2..] else s;
    |d| > 0 && AllHexDigits(d)
  }

  /** `conf_set_sym_val`: the value a text stands for, or none where the source leaves the symbol alone. */
  function SetVal(t: SymType, p: string): Option<UserValue> {
    match t
    case TristateType => if p != "" && p[0] == 'm' then Some(Tri(Mod)) else BoolVal(p)
    case Boolean => BoolVal(p)
    case StringType =>
      if p == "" || p[0] != '"' then None
      else var u := Unescaped(p[1..]); if u.None? then None else Some(Text(u.value))
    case IntType => if IntValid(p) then Some(Text(p)) else None
    case HexType => if HexValid(p) then Some(Text(p)) else None
    case Unknown => None
  }

  function BoolVal(p: string): Option<UserValue> {
    if p == "" then None else if p[0] == 'y' then Some(Tri(Yes)) else if p[0] == 'n' then Some(Tri(No)) else None
  }

  /* ---------- lines ---------- */

  const PREFIX: string := "CONFIG_"

  /** The first place of `c` from `k` on, or the length. */
  function Find(s: string, c: char, k: nat): (r: nat)
    requires k <= |s|
    ensures k <= r <= |s| && (r < |s| ==> s[r] == c) && forall i :: k <= i < r ==> s[i] != c
    decreases |s| - k
  {
    if k == |s| || s[k] == c then k else Find(s, c, k + 1)
  }

  lemma FindIs(s: string, c: char, k: nat, r: nat)
    requires k <= r < |s| && s[r] == c && forall i :: k <= i < r ==> s[i] != c
    ensures Find(s, c, k) == r
  {
  }

  /** Cut at the newline, and drop a carriage return before it. */
  function Chomp(v: string): string {
    var n := Find(v, '\n', 0);
    if n == |v| then v
    else if n > 0 && v[n - 1] == '\r' then v[..n - 1]
    else v[..n]
  }

  datatype Action = Ignore | Unset(name: string) | Assign(name: string, value: string)

  function ParseLine(line: string): Action {
    if line != "" && line[0] == '#' then ParseComment(line)
    else if PREFIX <= line then ParseAssignment(line)
    else Ignore
  }

  function ParseComment(line: string): Action {
    if |line| < 9 || line[2..9] != PREFIX then Ignore
    else
      var k := Find(line, ' ', 9);
      if k < |line| && "is not set" <= line[k + 1..] then Unset(line[9..k]) else Ignore
  }

  function ParseAssignment(line: string): Action
    requires |line| >= 7
  {
    var k := Find(line, '=', 7);
    if k == |line| then Ignore else Assign(line[7..k], Chomp(line[k + 1..]))
  }

  /** The symbols that exist, by name. */
  type Types = map<string, SymType>

  type Defs = map<string, UserValue>

  function Apply(types: Types, def: Defs, a: Action): Defs {
    match a
    case Ignore => def
    case Unset(name) =>
      if name in types && (types[name] == Boolean || types[name] == TristateType) then def[name := Tri(No)] else def
    case Assign(name, value) =>
      if name in types && SetVal(types[name], value).Some? then def[name := SetVal(types[name], value).value] else def
  }

  function ReadLines(types: Types, def: Defs, lines: seq<string>): Defs
    decreases |lines|
  {
    if lines == [] then def else ReadLines(types, Apply(types, def, ParseLine(lines[0])), lines[1..])
  }

  /** The lines of a text, each with its newline. */
  function Lines(text: string): seq<string>
    decreases |text|
  {
    if text == "" then []
    else
      var n := Find(text, '\n', 0);
      if n == |text| then [text] else [text[..n + 1]] + Lines(text[n + 1..])
  }

  /* ---------- printing ---------- */

  /** What is printed after the equals sign. */
  function Shown(v: UserValue, t: SymType): string {
    match v
    case Tri(x) => TriName(x)
    case Text(s) => if t == StringType then Quoted(s) else s
  }

  /** `kconfig_print_symbol` */
  function PrintLine(name: string, t: SymType, v: UserValue): string {
    if v == Tri(No) then "# CONFIG_" + name + " is not set\n"
    else PREFIX + name + "=" + Shown(v, t) + "\n"
  }

  /** The lexer takes letters, digits, `_`, `-`, `/` and `.` for a name (zconf.l:134); all that reading
      relies on is that a name holds none of the characters that end it in a line. */
  predicate NameChar(c: char) {
    c != ' ' && c != '=' && c != '\n' && c != '\0'
  }

  predicate IsName(s: string) {
    forall i :: 0 <= i < |s| ==> NameChar(s[i])
  }

  /** A value the symbol can have: of its type, and for a string on one line. */
  predicate Fits(t: SymType, v: UserValue) {
    match t
    case Boolean => v.Tri? && v.tri != Mod
    case TristateType => v.Tri?
    case IntType => v.Text? && IntValid(v.text)
    case HexType => v.Text? && HexValid(v.text)
    case StringType => v.Text? && '\n' !in v.text
    case Unknown => false
  }

  lemma UnsetLine(name: string)
    requires IsName(name)
    ensures ParseLine("# CONFIG_" + name + " is not set\n") == Unset(name)
  {
    var line := "# CONFIG_" + name + " is not set\n";
    var k := 9 + |name|;
    assert line[2..9] == PREFIX;
    assert line[9..k] == name && line[k] == ' ' && line[k + 1..] == "is not set\n";
    assert "is not set" <= line[k + 1..] by { assert "is not set\n"[..10] == "is not set"; }
    forall i | 9 <= i < k ensures line[i] != ' ' {
      assert line[i] == name[i - 9];
    }
    FindIs(line, ' ', 9, k);
  }

  lemma AssignParsed(name: string, w: string)
    requires IsName(name)
    ensures ParseLine(PREFIX + name + "=" + w) == Assign(name, Chomp(w))
  {
    hide Find, Chomp;
    var line := PREFIX + name + "=" + w;
    var k := 7 + |name|;
    assert line[..7] == PREFIX && line[0] == 'C';
    assert line[7..k] == name && line[k] == '=' && line[k + 1..] == w;
    forall i | 7 <= i < k ensures line[i] != '=' {
      assert line[i] == name[i - 7];
    }
    FindIs(line, '=', 7, k);
  }

  lemma ChompLine(v: string)
    requires '\n' !in v
    ensures Chomp(v + "\n") == if v != "" && v[|v| - 1] == '\r' then v[..|v| - 1] else v
  {
    FindIs(v + "\n", '\n', 0, |v|);
  }

  lemma AssignLine(name: string, value: string)
    requires IsName(name) && '\n' !in value && (value == "" || value[|value| - 1] != '\r')
    ensures ParseLine(PREFIX + name + "=" + value + "\n") == Assign(name, value)
  {
    hide ParseLine, Chomp;
    AssignParsed(name, value + "\n");
    ChompLine(value);
    assert PREFIX + name + "=" + value + "\n" == PREFIX + name + "=" + (value + "\n");
  }

  /** Printing a value and reading the line back sets exactly that value. */
  lemma LineRoundTrip(types: Types, def: Defs, name: string, v: UserValue)
    requires IsName(name) && name in types && Fits(types[name], v)
    ensures Apply(types, def, ParseLine(PrintLine(name, types[name], v))) == def[name := v]
  {
    var t := types[name];
    if v == Tri(No) {
      UnsetLine(name);
    } else {
      var p := Shown(v, t);
      ShownReads(t, v);
      AssignLine(name, p);
    }
  }

  lemma ShownReads(t: SymType, v: UserValue)
    requires Fits(t, v) && v != Tri(No)
    ensures SetVal(t, Shown(v, t)) == Some(v)
    ensures var p := Shown(v, t); '\n' !in p && p != "" && p[|p| - 1] != '\r'
  {
    if t == StringType {
      var e := Escaped(v.text);
      UnescapeUndoes(v.text, "");
      EscapedKeeps(v.text, '\n');
      assert Quoted(v.text)[1..] == e + "\"" + "";
    }
  }

  /* ---------- the whole file ---------- */

  datatype Item = Item(name: string, value: UserValue)

  ghost predicate Printable(types: Types, items: seq<Item>) {
    forall i :: 0 <= i < |items| ==>
      IsName(items[i].name) && items[i].name in types && Fits(types[items[i].name], items[i].value)
  }

  function PrintAll(types: Types, items: seq<Item>): string
    requires Printable(types, items)
  {
    if items == [] then ""
    else
      var x := items[0];
      PrintLine(x.name, types[x.name], x.value) + PrintAll(types, items[1..])
  }

  predicate IsLine(line: string) {
    line != "" && Find(line, '\n', 0) == |line| - 1
  }

  lemma PrintLineIsLine(name: string, t: SymType, v: UserValue)
    requires IsName(name) && Fits(t, v)
    ensures IsLine(PrintLine(name, t, v))
  {
    var line := PrintLine(name, t, v);
    if v != Tri(No) { ShownReads(t, v); }
    FindIs(line, '\n', 0, |line| - 1);
  }

  lemma LinesStep(line: string, rest: string)
    requires IsLine(line)
    ensures Lines(line + rest) == [line] + Lines(rest)
  {
    var n := |line| - 1;
    assert forall i :: 0 <= i < n ==> (line + rest)[i] == line[i];
    FindIs(line + rest, '\n', 0, n);
    assert (line + rest)[..n + 1] == line && (line + rest)[n + 1..] == rest;
  }

  lemma ReadFirst(types: Types, def: Defs, line: string, rest: string)
    requires IsLine(line)
    ensures ReadLines(types, def, Lines(line + rest)) ==
            ReadLines(types, Apply(types, def, ParseLine(line)), Lines(rest))
  {
    hide Apply, ParseLine;
    LinesStep(line, rest);
    assert ([line] + Lines(rest))[1..] == Lines(rest);
  }

  /** The values after each item has been set in turn. */
  function Assigned(def: Defs, items: seq<Item>): Defs
    decreases |items|
  {
    if items == [] then def else Assigned(def[items[0].name := items[0].value], items[1..])
  }

  ghost predicate DistinctNames(items: seq<Item>) {
    forall i, j :: 0 <= i < j < |items| ==> items[i].name != items[j].name
  }

  lemma {:induction false} AssignedAt(def: Defs, items: seq<Item>, name: string)
    requires DistinctNames(items)
    ensures forall i :: 0 <= i < |items| ==>
              items[i].name in Assigned(def, items) && Assigned(def, items)[items[i].name] == items[i].value
    ensures (forall i :: 0 <= i < |items| ==> items[i].name != name) ==>
              && (name in Assigned(def, items) <==> name in def)
              && (name in def ==> Assigned(def, items)[name] == def[name])
    decreases |items|
  {
    if items != [] {
      var x, rest := items[0], items[1..];
      var d := def[x.name := x.value];
      assert DistinctNames(rest) && forall i :: 0 <= i < |rest| ==> rest[i] == items[i + 1] && rest[i].name != x.name;
      AssignedAt(d, rest, name);
      AssignedAt(d, rest, x.name);
      assert forall i :: 0 < i < |items| ==> items[i] == rest[i - 1];
    }
  }

  /** Reading the file that was written sets every value again, whatever was set before. */
  lemma {:induction false} FileRoundTrip(types: Types, def: Defs, items: seq<Item>)
    requires Printable(types, items)
    ensures ReadLines(types, def, Lines(PrintAll(types, items))) == Assigned(def, items)
    decreases |items|
  {
    if items != [] {
      var x := items[0];
      var line, rest := PrintLine(x.name, types[x.name], x.value), PrintAll(types, items[1..]);
      PrintLineIsLine(x.name, types[x.name], x.value);
      ReadFirst(types, def, line, rest);
      LineRoundTrip(types, def, x.name, x.value);
      FileRoundTrip(types, def[x.name := x.value], items[1..]);
    }
  }

  /** So each of several differently named symbols gets its value back. */
  lemma ValuesRestored(types: Types, items: seq<Item>)
    requires Printable(types, items) && DistinctNames(items)
    ensures var def := ReadLines(types, map[], Lines(PrintAll(types, items)));
            && (forall i :: 0 <= i < |items| ==> items[i].name in def && def[items[i].name] == items[i].value)
            && (forall name :: name in def ==> exists i :: 0 <= i < |items| && items[i].name == name)
  {
    FileRoundTrip(types, map[], items);
    AssignedAt(map[], items, "");
    forall name | name in Assigned(map[], items) ensures exists i :: 0 <= i < |items| && items[i].name == name {
      AssignedAt(map[], items, name);
    }
  }

  /* ---------- a string with a newline in it ---------- */

  /** Inside the quotes, a quote always has a backslash before it. */
  lemma {:induction false} QuoteEscaped(s: string, i: nat)
    requires i < |Escaped(s)| && Escaped(s)[i] == '"'
    ensures i > 0 && Escaped(s)[i - 1] == '\\'
  {
    var k := if Special(s[0]) then 2 else 1;
    if i >= k {
      assert Escaped(s)[i] == Escaped(s[1..])[i - k];
      QuoteEscaped(s[1..], i - k);
      assert Escaped(s)[i - 1] == Escaped(s[1..])[i - 1 - k];
    }
  }

  /** So no beginning of it is a complete string. */
  lemma {:induction false} NoClosingQuote(s: string, k: nat)
    requires k <= |Escaped(s)|
    ensures Unescaped(Escaped(s)[..k]) == None
  {
    if k > 0 {
      var n, t, r := if Special(s[0]) then 2 else 1, Escaped(s)[..k], Escaped(s[1..]);
      if k >= n {
        NoClosingQuote(s[1..], k - n);
        var pre := if Special(s[0]) then ['\\', s[0]] else [s[0]];
        assert Escaped(s) == pre + r && |pre| == n;
        assert (pre + r)[..k][n..] == r[..k - n];
      }
    }
  }

  /** A line of which nothing can be made for the string symbol `name`. */
  ghost predicate Useless(name: string, line: string) {
    var a := ParseLine(line);
    a.Assign? && a.name == name ==> SetVal(StringType, a.value) == None
  }

  lemma UselessApplied(types: Types, def: Defs, name: string, line: string)
    requires name in types && types[name] == StringType && Useless(name, line)
    ensures name in Apply(types, def, ParseLine(line)) <==> name in def
  {
  }

  ghost predicate QuotesEscaped(e: string) {
    forall i :: 0 <= i < |e| && e[i] == '"' ==> i > 0 && e[i - 1] == '\\'
  }

  lemma ChompHead(v: string)
    requires Chomp(v) != ""
    ensures v != "" && Chomp(v)[0] == v[0]
  {
  }

  /** A line from inside the quotes, or the last one with the closing quote. */
  lemma InnerLine(e: string, j: nat, b: nat, name: string)
    requires QuotesEscaped(e) && j < b <= |e| + 2
    ensures Useless(name, (e + "\"\n")[j..b])
  {
    hide Find, Chomp, Unescaped;
    var t := e + "\"\n";
    var line := t[j..b];
    var a := ParseLine(line);
    if a.Assign? {
      var k := Find(line, '=', 7);
      var v := line[k + 1..];
      assert a.value == Chomp(v) && line[k] == t[j + k];
      if Chomp(v) != "" && Chomp(v)[0] == '"' {
        ChompHead(v);
        assert v[0] == t[j + k + 1];
        assert j + k + 1 == |e|;
        LastQuote(t[|e|..b]);
        assert v == t[|e|..b];
      }
    }
  }

  lemma LastQuote(v: string)
    requires v <= "\"\n" && v != ""
    ensures Chomp(v) == "\"" && SetVal(StringType, "\"") == None
  {
    if |v| == 2 {
      assert v == "\"\n";
      FindIs(v, '\n', 0, 1);
    } else {
      assert v == "\"";
    }
  }

  lemma {:induction false} InnerLines(types: Types, def: Defs, name: string, e: string, j: nat)
    requires name in types && types[name] == StringType && QuotesEscaped(e) && j <= |e| + 2
    ensures name in ReadLines(types, def, Lines((e + "\"\n")[j..])) <==> name in def
    decreases |e| + 2 - j
  {
    hide ParseLine, Apply, ReadLines, Lines;
    var t := e + "\"\n";
    var r := t[j..];
    if r == "" {
      NothingToRead(types, def);
    } else {
      assert r[|r| - 1] == '\n';
      var n := Find(r, '\n', 0);
      var line, rest := r[..n + 1], r[n + 1..];
      assert r == line + rest && line == t[j..j + n + 1] && rest == t[j + n + 1..];
      FindIs(line, '\n', 0, n);
      InnerLine(e, j, j + n + 1, name);
      UselessApplied(types, def, name, line);
      ReadFirst(types, def, line, rest);
      InnerLines(types, Apply(types, def, ParseLine(line)), name, e, j + n + 1);
    }
  }

  lemma NothingToRead(types: Types, def: Defs)
    ensures ReadLines(types, def, Lines("")) == def
  {
  }

  /** Only a string on one line comes back: with a newline in it nothing at all is set. */
  lemma StringRestored(types: Types, name: string, s: string)
    requires IsName(name) && name in types && types[name] == StringType
    ensures var def := ReadLines(types, map[], Lines(PrintLine(name, StringType, Text(s))));
            && (name in def <==> '\n' !in s)
            && (name in def ==> def[name] == Text(s))
  {
    var line := PrintLine(name, StringType, Text(s));
    if '\n' !in s {
      var items := [Item(name, Text(s))];
      assert PrintAll(types, items) == line + PrintAll(types, items[1..]) == line;
      ValuesRestored(types, items);
      assert items[0].name == name;
    } else {
      SplitString(types, name, s);
    }
  }

  lemma SplitString(types: Types, name: string, s: string)
    requires IsName(name) && name in types && types[name] == StringType && '\n' in s
    ensures name !in ReadLines(types, map[], Lines(PrintLine(name, StringType, Text(s))))
  {
    hide ParseLine, Apply, Escaped, ReadLines, Lines, PrintLine;
    var e := Escaped(s);
    EscapedKeeps(s, '\n');
    var n := Find(e, '\n', 0);
    var line := PREFIX + name + "=\"" + e[..n] + "\n";
    var rest := (e + "\"\n")[n + 1..];
    PrintSplit(name, s, n);
    ReadFirst(types, map[], line, rest);
    FirstPiece(name, s, n);
    UselessApplied(types, map[], name, line);
    forall i | 0 <= i < |e| && e[i] == '"' ensures i > 0 && e[i - 1] == '\\' { QuoteEscaped(s, i); }
    InnerLines(types, Apply(types, map[], ParseLine(line)), name, e, n + 1);
  }

  lemma PrintSplit(name: string, s: string, n: nat)
    requires IsName(name) && n < |Escaped(s)| && n == Find(Escaped(s), '\n', 0)
    ensures var line := PREFIX + name + "=\"" + Escaped(s)[..n] + "\n";
            IsLine(line) && PrintLine(name, StringType, Text(s)) == line + (Escaped(s) + "\"\n")[n + 1..]
  {
    hide Escaped, Find;
    var e := Escaped(s);
    var a, b, q := e[..n], e[n + 1..], "\"\n";
    SplitAt(e, q, n);
    Regroup(PREFIX + name + "=\"", a, b, q);
    PrintString(name, s);
    HeadIsLine(name, a);
  }

  lemma SplitAt(e: string, q: string, n: nat)
    requires n < |e| && e[n] == '\n'
    ensures e == e[..n] + "\n" + e[n + 1..] && (e + q)[n + 1..] == e[n + 1..] + q
  {
  }

  lemma Regroup(h: string, a: string, b: string, q: string)
    ensures h + (a + "\n" + b) + q == (h + a + "\n") + (b + q)
  {
  }

  lemma PrintString(name: string, s: string)
    ensures PrintLine(name, StringType, Text(s)) == PREFIX + name + "=\"" + Escaped(s) + "\"\n"
  {
    hide Escaped;
    var h, e := PREFIX + name + "=", Escaped(s);
    assert h + ("\"" + e + "\"") + "\n" == h + "\"" + e + "\"\n";
    assert h + "\"" == PREFIX + name + "=\"";
  }

  lemma HeadIsLine(name: string, a: string)
    requires IsName(name) && '\n' !in a
    ensures IsLine(PREFIX + name + "=\"" + a + "\n")
  {
    hide Find;
    var line := PREFIX + name + "=\"" + a + "\n";
    FindIs(line, '\n', 0, |line| - 1);
  }

  /** The opening quote and what stands before the first newline. */
  lemma FirstPiece(name: string, s: string, n: nat)
    requires IsName(name) && n < |Escaped(s)| && forall i :: 0 <= i < n ==> Escaped(s)[i] != '\n'
    ensures Useless(name, PREFIX + name + "=\"" + Escaped(s)[..n] + "\n")
  {
    hide Escaped, Find, SetVal, ParseLine, Chomp;
    var e := Escaped(s)[..n];
    var v := "\"" + e;
    assert PREFIX + name + "=\"" + e + "\n" == PREFIX + name + "=" + (v + "\n");
    AssignParsed(name, v + "\n");
    ChompLine(v);
    CutString(s, n);
    assert v[..n] == if n == 0 then "" else "\"" + Escaped(s)[..n - 1];
  }

  lemma CutString(s: string, n: nat)
    requires n < |Escaped(s)|
    ensures SetVal(StringType, "") == None
    ensures SetVal(StringType, "\"" + Escaped(s)[..n]) == None
    ensures n > 0 ==> SetVal(StringType, "\"" + Escaped(s)[..n - 1]) == None
  {
    NoClosingQuote(s, n);
    assert ("\"" + Escaped(s)[..n])[1..] == Escaped(s)[..n];
    if n > 0 {
      NoClosingQuote(s, n - 1);
      assert ("\"" + Escaped(s)[..n - 1])[1..] == Escaped(s)[..n - 1];
    }
  }

  /* ---------- the format itself ---------- */

  /** `n` is a comment, everything else an assignment, with strings in quotes. */
  lemma PrintedAs(name: string, t: SymType, s: string)
    ensures PrintLine(name, t, Tri(No)) == "# CONFIG_" + name + " is not set\n"
    ensures PrintLine(name, t, Tri(Mod)) == "CONFIG_" + name + "=m\n"
    ensures PrintLine(name, t, Tri(Yes)) == "CONFIG_" + name + "=y\n"
    ensures PrintLine(name, t, Text(s)) ==
            "CONFIG_" + name + "=" + (if t == StringType then "\"" + Escaped(s) + "\"" else s) + "\n"
    ensures Escaped("a\"b\\") == "a\\\"b\\\\"
  {
    assert "CONFIG_" + name + "=" + "m" + "\n" == "CONFIG_" + name + "=m\n";
    assert "CONFIG_" + name + "=" + "y" + "\n" == "CONFIG_" + name + "=y\n";
    EscapedPair();
  }

  lemma EscapedPair()
    ensures Escaped("a\"b\\") == "a\\\"b\\\\"
  {
    var s := "a\"b\\";
    assert s[1..] == "\"b\\" && s[1..][1..] == "b\\" && s[1..][1..][1..] == "\\" && s[1..][1..][1..][1..] == "";
    assert Escaped("\\") == "\\\\";
    assert Escaped("b\\") == "b\\\\";
    assert Escaped("\"b\\") == "\\\"b\\\\";
  }

  /** What is neither such a comment nor an assignment is passed over. */
  lemma PassedOver(line: string)
    ensures line == "" || (line[0] != '#' && !("CONFIG_" <= line)) ==> ParseLine(line) == Ignore
    ensures line != "" && line[0] == '#' && (|line| < 9 || line[2..9] != "CONFIG_") ==> ParseLine(line) == Ignore
    ensures "CONFIG_" <= line && '=' !in line[7..] ==> ParseLine(line) == Ignore
  {
    if "CONFIG_" <= line && '=' !in line[7..] {
      assert forall i :: 7 <= i < |line| ==> line[i] == line[7..][i - 7] && line[i] != '=';
    }
  }

  /** How a value is read for a bool or tristate symbol: by its first letter. */
  lemma ReadAs(p: string)
    requires p != ""
    ensures SetVal(Boolean, p) == (if p[0] == 'y' then Some(Tri(Yes)) else if p[0] == 'n' then Some(Tri(No)) else None)
    ensures SetVal(TristateType, p) == if p[0] == 'm' then Some(Tri(Mod)) else SetVal(Boolean, p)
    ensures SetVal(Unknown, p) == None
  {
  }

  /** Numbers: a sign but no leading zero; hexadecimal digits with or without a prefix. */
  lemma NumbersRead(d: char)
    requires '1' <= d <= '9'
    ensures SetVal(IntType, "0") == Some(Text("0")) && SetVal(IntType, ['-', d, '0']) == Some(Text(['-', d, '0']))
    ensures SetVal(IntType, ['0', d]) == None && SetVal(IntType, "") == None && SetVal(IntType, "-") == None
    ensures SetVal(IntType, [d, 'a']) == None
    ensures SetVal(HexType, "0xaF") == Some(Text("0xaF")) && SetVal(HexType, ['0', d]) == Some(Text(['0', d]))
    ensures SetVal(HexType, "0x") == None && SetVal(HexType, "") == None && SetVal(HexType, "fg") == None
  {
    assert ['-', d, '0'][1..] == [d, '0'] && "-"[1..] == "" && "0xaF"[2..] == "aF" && "0x"[2..] == "";
    assert [d, 'a'][1] == 'a' && "fg"[1] == 'g';
  }
}
