/** The dependency expressions of Kconfig and their three-valued meaning
    (scripts/config/expr.h and the evaluator at the end of expr.c). */
module Exprs {
  import opened Options

  /** `no`, `mod` and `yes` are 0, 1 and 2, and the C macros rely on that order. */
  type Tristate = t: int | 0 <= t <= 2

  const No: Tristate := 0
  const Mod: Tristate := 1
  const Yes: Tristate := 2

  /** The lesser of the two. */
  function AndT(a: Tristate, b: Tristate): (r: Tristate)
    ensures r <= a && r <= b && (r == a || r == b)
  {
    if a < b then a else b
  }

  /** The greater of the two. */
  function OrT(a: Tristate, b: Tristate): (r: Tristate)
    ensures r >= a && r >= b && (r == a || r == b)
  {
    if a > b then a else b
  }

  /** Yes and no change places, `m` stays. */
  function NotT(a: Tristate): (r: Tristate)
    ensures (r == Yes <==> a == No) && (r == No <==> a == Yes)
  {
    2 - a
  }

  datatype SymType = Unknown | Boolean | TristateType | IntType | HexType | StringType

  /** A symbol is compared by address in the source. `sym_lookup` interns constant symbols by
      name and never gives them a type; every other symbol is identified by name and type. */
  datatype Symbol = Constant(name: string) | Config(name: string, ctype: SymType) {
    function stype(): SymType {
      if Constant? then Unknown else ctype
    }
  }

  const YesSym := Constant("y")
  const ModSym := Constant("m")
  const NoSym := Constant("n")

  /** `E_LIST` and `E_RANGE` never occur in a dependency and have no constructor. */
  datatype Expr =
    | Sym(sym: Symbol)
    | Not(arg: Expr)
    | And(left: Expr, right: Expr)
    | Or(left: Expr, right: Expr)
    | Equal(lhs: Symbol, rhs: Symbol)
    | Unequal(lhs: Symbol, rhs: Symbol)

  predicate IsTriConstant(s: Symbol) {
    s == YesSym || s == ModSym || s == NoSym
  }

  /** The two associative node types that most passes are parameterised by. */
  datatype Op = AndOp | OrOp

  predicate IsOp(e: Expr, t: Op) {
    (t == AndOp && e.And?) || (t == OrOp && e.Or?)
  }

  predicate IsConnective(e: Expr) {
    e.And? || e.Or?
  }

  function OpOf(e: Expr): Op
    requires IsConnective(e)
  {
    if e.And? then AndOp else OrOp
  }

  function Mk(t: Op, l: Expr, r: Expr): Expr {
    if t == AndOp then And(l, r) else Or(l, r)
  }

  function Comb(t: Op, a: Tristate, b: Tristate): Tristate {
    if t == AndOp then AndT(a, b) else OrT(a, b)
  }

  /** The symbol that is neutral for the node type, and its value. */
  function Neutral(t: Op): Expr {
    Sym(if t == AndOp then YesSym else NoSym)
  }

  function NeutralT(t: Op): Tristate {
    if t == AndOp then Yes else No
  }

  predicate IsYes(e: Expr) {
    e == Sym(YesSym)
  }

  predicate IsNo(e: Expr) {
    e == Sym(NoSym)
  }

  predicate IsYN(e: Expr) {
    IsYes(e) || IsNo(e)
  }

  function Size(e: Expr): nat
    ensures Size(e) >= 1
  {
    match e
    case Sym(_) => 1
    case Equal(_, _) => 1
    case Unequal(_, _) => 1
    case Not(a) => 1 + Size(a)
    case And(l, r) => 1 + Size(l) + Size(r)
    case Or(l, r) => 1 + Size(l) + Size(r)
  }

  /** What the rest of the program makes of the symbols: `curr.tri` and `sym_get_string_value`. */
  datatype Valuation = Valuation(tri: Symbol -> Tristate, str: Symbol -> string)

  function TriName(t: Tristate): string {
    if t == 0 then "n" else if t == 1 then "m" else "y"
  }

  predicate HasTruth(s: Symbol) {
    s.stype() == Boolean || s.stype() == TristateType
  }

  /** Valuations the symbol engine can produce: a boolean is never `m`, a bool or tristate
      symbol reads as its letter, and a constant symbol reads as its own name. */
  ghost predicate WellFormed(v: Valuation) {
    && (forall s: Symbol :: s.stype() == Boolean ==> v.tri(s) != Mod)
    && (forall s: Symbol :: HasTruth(s) ==> v.str(s) == TriName(v.tri(s)))
    && (forall s: Symbol :: s.Constant? ==> v.str(s) == s.name)
    && v.tri(YesSym) == Yes && v.tri(ModSym) == Mod && v.tri(NoSym) == No
  }

  function Truth(b: bool): Tristate {
    if b then Yes else No
  }

  /** `expr_calc_value` over settled symbol values. */
  function Eval(e: Expr, v: Valuation): Tristate {
    match e
    case Sym(s) => v.tri(s)
    case Not(a) => NotT(Eval(a, v))
    case And(l, r) => AndT(Eval(l, v), Eval(r, v))
    case Or(l, r) => OrT(Eval(l, v), Eval(r, v))
    case Equal(a, b) => Truth(v.str(a) == v.str(b))
    case Unequal(a, b) => Truth(v.str(a) != v.str(b))
  }

  /** A missing expression counts as `y`. */
  function EvalOpt(e: Option<Expr>, v: Valuation): Tristate {
    match e
    case None => Yes
    case Some(x) => Eval(x, v)
  }

  /** What is made of an `m` where only a boolean will do. */
  function Promote(t: Tristate): Tristate {
    if t == Mod then Yes else t
  }

  /** Kleene's information order: only `m` may become something else. */
  predicate Refines(a: Tristate, b: Tristate) {
    a == b || a == Mod
  }

  /** Every occurrence of a symbol in an expression. */
  function Symbols(e: Expr): set<Symbol> {
    match e
    case Sym(s) => {s}
    case Not(a) => Symbols(a)
    case And(l, r) => Symbols(l) + Symbols(r)
    case Or(l, r) => Symbols(l) + Symbols(r)
    case Equal(a, b) => {a, b}
    case Unequal(a, b) => {a, b}
  }

  function SymbolsOpt(e: Option<Expr>): set<Symbol> {
    match e
    case None => {}
    case Some(x) => Symbols(x)
  }

  /** Rewriting may bring in the three constants but no other symbol. */
  function WithConstants(d: set<Symbol>): set<Symbol> {
    d + {YesSym, ModSym, NoSym}
  }
}
