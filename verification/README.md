# Kconfig engine and firmware formats: a verified model

This project models the configuration engine of the OpenWrt SDK (`openwrt-sdk/scripts/config`) and three
pieces of its firmware tools (`openwrt-sdk/tools/firmware-utils/src`), and proves what they are relied on for.
`dafny verify dfyconfig.toml` covers every file.

**Expressions** (`Options`, `Exprs`, `NormalForm`, `EqElim`, `Paths`, `EqReflexive`, `JoinRules`, `Dups`,
`Compare`). Dependencies are formulas
over `n < m < y` with minimum, maximum and `2 - x`. Each rewriting pass of `expr.c` is proved to keep their value
under every three-valued valuation the symbol engine can produce, and those that do not keep it are proved to fail
exactly where a stated condition does. `expr_eliminate_dups` works on one tree through pairs of pointers that may
alias; here a pointer is a path into the tree held by a class, and the class also holds the global rewrite counter
that decides when the loop ends.

**Symbols** (`SymbolTable`, `DepCheck`, `SymbolSpec`, `SymbolTheorems`, `SymbolLaws`, `SymbolCalc`, `Choice`). The cycle check is a
depth-first search with two flags and a hand-built stack; its verdict is proved to be "the graph has a cycle", and its
silence yields a ranking of the symbols. From such a ranking the caching evaluator is proved to give every symbol, in
any order of calculation, the value of a definition without a cache. What the user may rely on (accepted values are
honoured, selects are honoured, booleans are never `m`) is then proved of that definition, and `SymbolLaws` says what
the value is in terms of prompts, user value, first applicable default and selects alone.

**Menu** (`Absorption`, `MenuTree`, `MenuBooks`, `MenuShape`, `MenuFinalize`). `menu_finalize` relinks `next`, `parent` and
`list` in place while it recurses. The links are a map from addresses, and the ghost tree they spell out is tracked
through absorption and flattening, together with which sibling took in which and where it stopped. That alone
determines the finished tree: every entry hangs at the first entry with a prompt, or the root, on the chain that leads
from it to the sibling that took it in or else to the entry it was written under.

**Start-up** (`Startup`). The three composed: the symbol table is built from the finalised tree, the cycle check runs over
it, and if it is silent the evaluator does. That evaluation reads nothing the check does not follow is proved, not
assumed: every entry of a symbol carries a property without a condition of its own (menu.c:62), which repeats the
dependency of the entry because duplicate elimination leaves its own results alone.

**Configuration file** (`ConfigText`, `ConfigFile`). Escaping, the in-place unescape with `memmove`, line parsing with
NUL bytes written into the buffer, and printing; reading undoes writing.

**Saving** (`Saving`). The evaluator and the file together: what is written of a calculated configuration, read back and
calculated again gives every symbol its old value under an exact condition on the values.

**Firmware** (`Words`, `Crc`, `BuffaloCipher`, `BuffaloLaws`, `BuffaloContainer`, `BuffaloFormat`, `Md5`). The two CRC tables and both update loops
against the bit-serial register; the Buffalo container with its chained seeds and the decryption that overlaps its own
input; streaming MD5 against sections 3.1 to 3.3 and 3.5 of RFC 1321.

## What was found

* The second duplicate pass can lose an `m`: `(a || b) && !a && !b` with `a` at `m` is `m`, and becomes `n`
  (`Dups.OpposeCanLoseM`). Every such step keeps the value if and only if it was not `m` (`Dups.OpposeStep`), so the
  whole loop only ever turns `m` into `y` or `n`. On this tree it does: whatever is opposed at the root alone is never `m`
  afterwards (`Dups.Optimiser.EliminateDups`, `Dups.NegationsOpposedAtRoot`).
* `expr_trans_compare` swaps `=` and `!=` under `!`, which is right if and only if the negated term is not `m`
  (`Compare.NegationCompare`).
* An entry absorbed below a symbol can therefore be met where neither the symbol nor its prompt is: with the prompt
  `A = n`, an entry depending on `!A && (S || T)` moves below `S`, yet with `A` at `m`, `S` at `n` and `T` at `y` it is `m`
  (`Absorption.AbsorbedAtM`). This happens at exactly the valuations where symbol and prompt are `n` and the dependency
  owes its value to the negation of an `m` (`Absorption.BelowExact`); never where the dependency is `y`, and never at all
  if no negated symbol of the dependency is a tristate (`Absorption.BelowWithoutTristate`).
* `sym_check_deps` called on a symbol outside any other check never returns one, so `conf_parse`, which
  counts its results as errors, does not stop for a recursive dependency that has been reported
  (`DepCheck.Checker.CheckAll` ends with `errors == 0` whether or not there is a cycle).
* `sym_set_tristate_value` accepts the value a symbol already has without any test and keeps the cache. The cache is then
  still right if and only if the symbol is invisible, the value is within its visibility, or the selects carry it
  (`SymbolTheorems.ConfirmedIsKept`). It can fail: a tristate prompted for at `m` with the default `y` is `y`, and
  confirming that makes it `m` (`SymbolTheorems.ConfirmingCanChange`).
* In a visible choice exactly one member is set if and only if no hidden member has an active default, which the
  source warns about but allows (`Choice.ExactlyOne`); two members are set in `Choice.TwoSet`.
* Writing a configuration and reading it back keeps all values if and only if every visible bool or tristate symbol has a
  value within its visibility or equal to its reverse dependency (`Saving.SaveAndReload`); a default beyond the
  visibility breaks it (`Saving.Unsteady`).
* Two different keys need not give different Buffalo ciphers: a key written twice, with the seed between, does exactly
  what it does written once (`BuffaloLaws.DoubledKey`). Two keys make the same exchanges in the schedule if and only if
  they agree at every step when repeated (`BuffaloLaws.KeysDecide`); `BuffaloLaws.KeysMatter` has two that do not.
* A string value comes back from the file if and only if it has no newline (`ConfigText.StringRestored`).

## Hypotheses

A valuation is one the engine produces (`Exprs.WellFormed`); `SymbolTheorems.ReadingIsWellFormed` proves that calculated
values are such. `modules_val` is fixed while symbols are evaluated. Evaluation also reads `dir_dep`, which the cycle
check does not follow; the theorems about the evaluator alone ask that its symbols, the three constants apart, occur among
the edges the check does follow (`SymbolSpec.Covered`), and `Startup.TableCovered` proves this of every finalised tree. What
`Absorption` and `TransCompareCorrect` say of values is about expressions whose bare symbols have a truth value
(`Compare.Typed`): an undefined symbol is `n` but reads as its own name. A symbol name holds no blank, `=`, newline or
NUL, which the lexer guarantees; configuration text holds no NUL. `Saving` asks that a text value that is written be valid
for its type and, for a string, on one line.

## Model

| member | source | states |
|---|---|---|
| `NormalForm.Transform` | openwrt-sdk/scripts/config/expr.c:636-771 | The rewriting terminates although a De Morgan step starts it again on a new tree, and never increases the weight that measures it |
| `NormalForm.TransformKeepsValue` | openwrt-sdk/scripts/config/expr.c:636-771 | The value of every expression is kept under every well-formed three-valued valuation |
| `NormalForm.TransformIsNormal` | openwrt-sdk/scripts/config/expr.c:636-771 | Negation is left only over symbols other than y, m and n, and no boolean is compared with one of those |
| `NormalForm.TransformIdempotent` | openwrt-sdk/scripts/config/expr.c:636-771 | A second pass changes nothing, and the unchanged expressions are exactly the normal ones |
| `EqElim.ElimYnKeepsValue` | openwrt-sdk/scripts/config/expr.c:231-312 | Folding the constants y and n keeps the value |
| `EqElim.ElimYnExact` | openwrt-sdk/scripts/config/expr.c:231-312 | No foldable constant is left, and the tree gets strictly smaller if and only if there was one |
| `EqElim.ElimEqRecSplits` | openwrt-sdk/scripts/config/expr.c:130-162 | One common value is split off both sides: each original is that value joined to its residue |
| `EqElim.ElimEqOrder` | openwrt-sdk/scripts/config/expr.c:164-184 | Any order between the residues also holds between the originals |
| `EqElim.ExprEqSound` | openwrt-sdk/scripts/config/expr.c:189-229 | Expressions reported equal have equal values under every valuation |
| `EqReflexive.ExprEqReflexive` | openwrt-sdk/scripts/config/expr.c:189-229 | Every expression is reported equal to itself, although the decision is made by blanking common parts of two copies |
| `EqReflexive.ExtractSelf` | openwrt-sdk/scripts/config/expr.c:848-875 | All of an expression is common to it and itself |
| `EqElim.ExtractCommonRestores` | openwrt-sdk/scripts/config/expr.c:826-875 | The extracted part joined to either residue gives back that original |
| `JoinRules.JoinSound` | openwrt-sdk/scripts/config/expr.c:346-502 | A merge of two operands has the value of the pair, under every three-valued valuation |
| `JoinRules.EqualMerges` | openwrt-sdk/scripts/config/expr.c:351-352 | Expressions reported equal are merged into one, and every expression is merged with itself, for both connectives |
| `JoinRules.OrRules` | openwrt-sdk/scripts/config/expr.c:374-398 | The pairs an or merges, in either order, and what each becomes |
| `JoinRules.AndSymbolRules` | openwrt-sdk/scripts/config/expr.c:439-452 | A symbol and a comparison of it under an and, in either order |
| `JoinRules.AndCompareRules` | openwrt-sdk/scripts/config/expr.c:454-485 | Two comparisons of a tristate under an and, in either order |
| `JoinRules.OnlyAboutOneSymbol` | openwrt-sdk/scripts/config/expr.c:346-372 | Besides equal expressions only two atoms about one bool or tristate symbol are merged |
| `JoinRules.JoinShape` | openwrt-sdk/scripts/config/expr.c:346-502 | A merge is smaller than the pair, is not a node of the type being merged and keeps negation over symbols |
| `Paths.SpineMerge` | openwrt-sdk/scripts/config/expr.c:504-554 | Blanking one operand of a flattened node and merging it into another one, wherever both sit, keeps the value of the node |
| `Dups.MergeStep` | openwrt-sdk/scripts/config/expr.c:530-551 | One merge through two different pointers into the tree keeps the value, leaves a constant to fold and does not grow the tree |
| `Dups.MergedAll` | openwrt-sdk/scripts/config/expr.c:504-554 | A pass that rewrote nothing proves that no two operands of any node at any depth can be merged |
| `Dups.OpposesValue` | openwrt-sdk/scripts/config/expr.c:574-604 | When the test of the second pass succeeds, one operand already implies the negation of the other |
| `Dups.NegationOpposes` | openwrt-sdk/scripts/config/expr.c:574-604 | The transformed negation of any operand opposes it, under either connective |
| `Dups.OpposeStep` | openwrt-sdk/scripts/config/expr.c:574-604 | Each rewrite of the second pass keeps the value if and only if the value was not m, and otherwise only makes an m definite |
| `Dups.NegationsOppose` | openwrt-sdk/scripts/config/expr.c:574-589 | The two cases named in the comments, a or b against !a and !b, and a and b against !a or !b, are ones the test finds |
| `Dups.OpposeCanLoseM` | openwrt-sdk/scripts/config/expr.c:574-604 | A concrete family of trees where one rewrite of the pass turns m into n |
| `Dups.NegationsOpposedAtRoot` | openwrt-sdk/scripts/config/expr.c:612-634 | That tree is one on which the whole loop ends with a value that is never m |
| `Dups.UnopposedAll` | openwrt-sdk/scripts/config/expr.c:556-610 | A second pass that rewrote nothing proves that no compound operand at any depth is opposed by what is beside or above it |
| `Dups.RefinedWithoutM` | openwrt-sdk/scripts/config/expr.c:612-634 | Under a valuation without m among the symbols, what the loop yields has exactly the old value |
| `Dups.Optimiser.EliminateEqPass` | openwrt-sdk/scripts/config/expr.c:130-162 | Computes the paired residues, and an unmoved counter means that nothing changed |
| `Dups.Optimiser.EliminateEq` | openwrt-sdk/scripts/config/expr.c:164-184 | Computes the residues that ElimEqOrder speaks about; the counter never falls |
| `Dups.Optimiser.Eq` | openwrt-sdk/scripts/config/expr.c:189-229 | Decides the equality proved sound above and puts the rewrite counter back |
| `Dups.Optimiser.Dups1` | openwrt-sdk/scripts/config/expr.c:504-554 | Called with aliased pointers: the value is kept everywhere, only the given subtree changes, a moved counter leaves a constant to fold, an unmoved one means all pairs below were checked |
| `Dups.Optimiser.Dups1Leaves` | openwrt-sdk/scripts/config/expr.c:521-552 | The same for two leaves, with the nested pass below the first one |
| `Dups.Optimiser.Dups2` | openwrt-sdk/scripts/config/expr.c:556-610 | The same with refinement in place of equality; a second operand of the same type is visited leaf by leaf and then as a whole |
| `Dups.Optimiser.EliminateDups` | openwrt-sdk/scripts/config/expr.c:612-634 | The loop terminates, restores the counter, never changes a y or n under any valuation, does not grow the tree, brings in no symbol but the constants, and leaves a tree unchanged if and only if neither pass has anything to do in it at any depth, which is how every result ends; in the result no operand of a connective stands there twice and no compound operand beside its own negation, at any depth; a tree opposed only among the operands of its root is never m afterwards |
| `Compare.TransCompareDefined` | openwrt-sdk/scripts/config/expr.c:877-936 | Comparing with y or n always yields an expression |
| `Compare.TransCompareReads` | openwrt-sdk/scripts/config/expr.c:877-936 | Under every valuation, m under negations included, the result says what comparing each symbol by itself in two-valued logic says |
| `Compare.TransCompareCorrect` | openwrt-sdk/scripts/config/expr.c:877-936 | The result is y exactly when the comparison with the value of the original holds and n otherwise, if no negated subterm is m |
| `Compare.NegationCompare` | openwrt-sdk/scripts/config/expr.c:908-909 | Across a negation the result is right if and only if the negated term is not m |
| `Compare.TransBoolKeepsPromoted` | openwrt-sdk/scripts/config/expr.c:317-341 | With negation only over symbols the value is unchanged once m counts as y |
| `Compare.TransBoolExact` | openwrt-sdk/scripts/config/expr.c:317-341 | Exactly the comparisons of a tristate with != n are removed |
| `Compare.TransBoolUnderNot` | openwrt-sdk/scripts/config/expr.c:317-341 | The restriction is needed: a negation of FOO != n is unchanged if and only if FOO is not m |
| `Compare.DependsForces` | openwrt-sdk/scripts/config/expr.c:797-824 | An expression said to depend on a symbol is n while the symbol is n, and contains the symbol |
| `Compare.DependsIs` | openwrt-sdk/scripts/config/expr.c:797-824 | An expression depends on a symbol if and only if one operand of its outermost and is the symbol or says it is y, is m or is not n |
| `Compare.ContainsIs` | openwrt-sdk/scripts/config/expr.c:773-795 | It contains exactly the symbols that occur in it |
| `Compare.CombineDep` | openwrt-sdk/scripts/config/menu.c:294-311 | A combined dependency means the conjunction wherever that is not m (for a symbol that is not tristate after promotion, as its visibility reads it) and has nothing left to eliminate (for such a symbol, no tristate compared with != n); it brings in no symbol but the constants, and, where nothing is added to a dependency already combined, keeps every symbol of it but the constants |
| `Absorption.ReducedNonzero` | openwrt-sdk/scripts/config/menu.c:322-333 | For a typed dependency the reduced comparison with n says, under every valuation, whether the comparison takes it as met; it refines the transformed comparison, has nothing left to merge, and is that comparison itself if and only if that has nothing to merge |
| `Absorption.BelongsBelow` | openwrt-sdk/scripts/config/menu.c:322-341 | The answer is that of the test: containment, and then direct dependence or a residue of the prompt that is y after common parts of the reduced comparisons are removed; a refusal says which of these failed |
| `Absorption.PassedBelow` | openwrt-sdk/scripts/config/menu.c:332-341 | An entry that passed is, as the comparison takes it, met only where the symbol or its prompt is |
| `Absorption.MetBetween` | openwrt-sdk/scripts/config/menu.c:332-333 | With negation only over symbols, what the comparison takes as met is the value with the negation of an m counted as n; it differs from the value only at an m, and then some negated symbol is m |
| `Absorption.BelowExact` | openwrt-sdk/scripts/config/menu.c:322-341 | For an accepted entry, that it is met only where the symbol or its prompt is holds at a valuation if and only if one of those is met or the dependency does not owe its value to a negated m; it always holds where the dependency is y |
| `Absorption.BelowWithoutTristate` | openwrt-sdk/scripts/config/menu.c:322-341 | It holds at every valuation if no negated symbol of the dependency is a tristate or the constant m |
| `Absorption.AbsorbedAtM` | openwrt-sdk/scripts/config/menu.c:332-341 | The entry with !A and (S or T) after the prompt A = n passes the test and cannot be refused, and is m at a valuation where S and the prompt are n |
| `DepCheck.PlacesRank` | openwrt-sdk/scripts/config/symbol.c:1090-1153 | The order in which symbols are finished ranks every symbol above all it depends on |
| `DepCheck.Verdict` | openwrt-sdk/scripts/config/symbol.c:1192-1224 | After all symbols: a report was made if and only if the graph has a cycle, and silence comes with a ranking |
| `DepCheck.Checker.PrintRecursive` | openwrt-sdk/scripts/config/symbol.c:1018-1088 | For a symbol on the stack the printed entries are a real cycle starting at it; only for one that is not there is the unexpected error counted |
| `DepCheck.Checker.CheckDeps` | openwrt-sdk/scripts/config/symbol.c:1192-1224 | Keeps the CHECK flag equal to membership of the stack, the stack balanced and the unexpected branch unreached; a returned symbol is still open |
| `DepCheck.Checker.CheckUnmarked` | openwrt-sdk/scripts/config/symbol.c:1214-1221 | A symbol met for the first time is done afterwards, with all it depends on, unless a cycle was reported |
| `DepCheck.Checker.CheckSymDeps` | openwrt-sdk/scripts/config/symbol.c:1121-1153 | Push, follow reverse dependency, visibilities and default values, pop: all of its edges searched or a report made |
| `DepCheck.Checker.CheckProps` | openwrt-sdk/scripts/config/symbol.c:1133-1147 | The loop over the properties searches exactly the edges of the ones that are not selects |
| `DepCheck.Checker.CheckExpr` | openwrt-sdk/scripts/config/symbol.c:1090-1118 | Every symbol of the expression is searched, left to right, unless one is handed back |
| `DepCheck.Checker.CheckAll` | openwrt-sdk/scripts/config/zconf.y:529-534 | Over all symbols: reported if and only if cyclic, flags and stack clear at the end, a ranking if silent, and no error counted in any case |
| `SymbolTable.RankedHasNoCycle` | openwrt-sdk/scripts/config/symbol.c:989-1037 | A ranked graph has no cycle |
| `SymbolTable.EdgesAre` | openwrt-sdk/scripts/config/symbol.c:1129-1147 | An edge leads to what the reverse dependency mentions and to what the condition of a property that is not a select, or the value of a default, mentions, and nowhere else |
| `SymbolTable.SelectsAddNothing` | openwrt-sdk/scripts/config/symbol.c:1133-1135 | Without any select the graph, and so the verdict, is the same |
| `SymbolTable.SelectingRanked` | openwrt-sdk/scripts/config/symbol.c:1133-1135 | One symbol selecting another is no recursive dependency |
| `SymbolSpec.StepDepends` | openwrt-sdk/scripts/config/symbol.c:188-226 | Value, visibility and reverse dependency look only at the symbols the edges name, the direct dependency only at its own |
| `SymbolSpec.RoundsSettle` | openwrt-sdk/scripts/config/symbol.c:292-428 | In an acyclic table a symbol has its final value after as many rounds as its rank |
| `SymbolSpec.PureSolves` | openwrt-sdk/scripts/config/symbol.c:292-428 | The definition without a cache gives every symbol the value its properties ask for |
| `SymbolSpec.SolutionUnique` | openwrt-sdk/scripts/config/symbol.c:292-428 | No other assignment of values does |
| `SymbolTheorems.NeverM` | openwrt-sdk/scripts/config/symbol.c:348-374 | No boolean, and without modules no tristate, has the value m |
| `SymbolLaws.VisibilityLaw` | openwrt-sdk/scripts/config/symbol.c:193-204 | Visibility is the strongest condition of all prompts, n without any; m counts as y but for a tristate with modules |
| `SymbolLaws.DependencyLaw` | openwrt-sdk/scripts/config/symbol.c:207-225 | A missing reverse dependency is n, a missing direct one y; m is taken for y where only y and n will do |
| `SymbolLaws.UserLaw` | openwrt-sdk/scripts/config/symbol.c:336-346 | While visible, a user value counts as far as the visibility goes, raised by the selects |
| `SymbolLaws.DefaultLaw` | openwrt-sdk/scripts/config/symbol.c:350-374 | Otherwise the first default with a condition that is not n counts as far as that condition goes, raised by the selects |
| `SymbolLaws.NoDefaultLaw` | openwrt-sdk/scripts/config/symbol.c:348-374 | Without such a default the value is what the selects ask |
| `SymbolLaws.TextLaw` | openwrt-sdk/scripts/config/symbol.c:376-394 | An int, hex or string has the text of the user while visible, else that of the symbol its first applicable default names, else none |
| `SymbolLaws.UndefinedLaw` | openwrt-sdk/scripts/config/symbol.c:316-319 | A symbol without a type is n and reads as its name; the constants are y, m and n |
| `SymbolLaws.TwoValuedLaw` | openwrt-sdk/scripts/config/symbol.c:63-74 | Neither a boolean nor, without modules, a tristate is ever m |
| `SymbolTheorems.ReadingIsWellFormed` | openwrt-sdk/scripts/config/symbol.c:748-770 | Calculated values form a valuation of the kind the optimiser is proved correct for |
| `SymbolTheorems.AccumulateValue` | openwrt-sdk/scripts/config/menu.c:312-316 | A reverse dependency built term by term is the strongest of its terms and n without any |
| `SymbolTheorems.TermsHonoured` | openwrt-sdk/scripts/config/symbol.c:371-374 | A symbol is at least what each of its terms asks, and without prompt or default exactly the strongest one |
| `SymbolTheorems.EarlierUnaffected` | openwrt-sdk/scripts/config/symbol.c:292-374 | A user value cannot reach the symbols its own symbol depends on |
| `SymbolTheorems.AcceptedIsHonoured` | openwrt-sdk/scripts/config/symbol.c:462-479 | A value that the range test accepts is the value after recalculation |
| `SymbolLaws.AcceptedExactly` | openwrt-sdk/scripts/config/symbol.c:462-479 | The range test accepts a value if and only if the visibility is above what the selects ask and setting the value leads to it |
| `SymbolTheorems.ConfirmedIsKept` | openwrt-sdk/scripts/config/symbol.c:485-512 | Confirming a value leaves every cached value right if and only if visibility or selects carry it |
| `SymbolTheorems.ConfirmingCanChange` | openwrt-sdk/scripts/config/symbol.c:485-512 | A tristate prompted for at m with the default y is y, and confirming it makes it m |
| `SymbolTheorems.OthersFollow` | openwrt-sdk/scripts/config/symbol.c:511-512 | If the changed symbol keeps its value, so does every other symbol |
| `SymbolCalc.CheckedIsAcyclic` | openwrt-sdk/scripts/config/symbol.c:1121-1153 | The ranking the cycle check yields is the one evaluation needs |
| `SymbolCalc.Engine.constructor` | openwrt-sdk/scripts/config/symbol.c:292-309 | A fresh table is in a state where everything marked valid is right |
| `SymbolCalc.Engine.CalcValue` | openwrt-sdk/scripts/config/symbol.c:292-428 | The flag-memoised recursion leaves in the cell the value, visibility, dependencies and write flag of the definition, and disturbs no cell still being computed |
| `SymbolCalc.Engine.CalcVisibility` | openwrt-sdk/scripts/config/symbol.c:188-226 | Stores exactly visibility, direct and reverse dependency of the definition |
| `SymbolCalc.Engine.FindDefault` | openwrt-sdk/scripts/config/symbol.c:115-125 | Finds the first default whose condition is not n: no earlier default has one |
| `SymbolCalc.WrittenLaw` | openwrt-sdk/scripts/config/symbol.c:336-394 | Written are the visible symbols, a bool or tristate that a select raises, and those with an applicable default, which for a text has to name a symbol |
| `SymbolCalc.Engine.CalcExpr` | openwrt-sdk/scripts/config/expr.c:938-977 | Evaluates over cells, calculating symbols on the way, to the value under the final valuation |
| `SymbolCalc.Engine.CalcAll` | openwrt-sdk/scripts/config/symbol.c:292-428 | Whatever symbols are calculated in whatever order, each gets its value by the definition |
| `SymbolCalc.Engine.ClearAllValid` | openwrt-sdk/scripts/config/symbol.c:430-440 | After clearing, nothing but the three constants counts as calculated and no earlier cell matters |
| `SymbolCalc.Engine.SetTristate` | openwrt-sdk/scripts/config/symbol.c:481-515 | A value is accepted if and only if it is the current one, or the selects leave a choice and setting it leads to it; refusal changes nothing, an accepted different value clears the cache and is then the value; no boolean ever holds m in between |
| `Choice.Pick` | openwrt-sdk/scripts/config/symbol.c:234-290 | The settled member is visible, exists if and only if some member is visible, and is the picked one if that is visible |
| `Choice.PickLaw` | openwrt-sdk/scripts/config/symbol.c:234-258 | Without a visible pick of the user the member is the target of the first default that applies and names a visible member, and without one the first visible member |
| `Choice.NothingSet` | openwrt-sdk/scripts/config/symbol.c:283-290 | A choice that is hidden or has no visible member sets none |
| `Choice.ExactlyOne` | openwrt-sdk/scripts/config/symbol.c:333-335 | In a visible choice with a visible member exactly one member is set if and only if no hidden member has an active default, and the settled one is visible and set |
| `Choice.TwoSet` | openwrt-sdk/scripts/config/symbol.c:333-357 | A hidden member with a default is set beside the settled one |
| `Choice.Group.CalcChoice` | openwrt-sdk/scripts/config/symbol.c:292-402 | The choice symbol, through the recursion into its members and back, gets its value and its member by the definition |
| `Choice.Group.CalcPick` | openwrt-sdk/scripts/config/symbol.c:260-290 | Looks at all members and settles on the one Pick names; without one the choice is n; the choice counts as set by the user only if every visible member does |
| `Choice.Group.DefaultMember` | openwrt-sdk/scripts/config/symbol.c:234-258 | First applicable default naming a visible member, else the first visible member |
| `Choice.Group.CalcMember` | openwrt-sdk/scripts/config/symbol.c:292-335 | A member calculated first or later gets the same value |
| `Choice.Group.CalcAll` | openwrt-sdk/scripts/config/symbol.c:292-428 | Members calculated in any order get the values of the definition |
| `Choice.Group.SetYes` | openwrt-sdk/scripts/config/symbol.c:481-515 | Setting a visible member succeeds and makes it the chosen one, the only one set if the hidden members are quiet |
| `MenuTree.SegRetarget` | openwrt-sdk/scripts/config/menu.c:395-404 | Relinking the last sibling of a chain changes where the chain ends and nothing else |
| `MenuTree.PreSplice` | openwrt-sdk/scripts/config/menu.c:395-404 | Moving the children of an entry up behind it keeps the order of all entries |
| `MenuTree.Climb` | openwrt-sdk/scripts/config/confdata.c:809-814 | Going up stops at the next entry still to be visited, or at the end when there is none |
| `MenuTree.Advance` | openwrt-sdk/scripts/config/confdata.c:802-814 | One step leads from an entry to the one that follows it in pre-order |
| `MenuTree.Walk` | openwrt-sdk/scripts/config/confdata.c:782-815 | The walk visits every entry exactly once, in pre-order, and stops |
| `MenuFinalize.Menus.constructor` | openwrt-sdk/scripts/config/menu.c:262-268 | Any parsed tree with distinct entries is a valid start |
| `MenuFinalize.Menus.Inherit` | openwrt-sdk/scripts/config/menu.c:294-318 | One entry and its properties take over the dependency of what encloses them; each select reaches its target with its selector and combined condition, and nothing else does |
| `MenuFinalize.Menus.PropagateKids` | openwrt-sdk/scripts/config/menu.c:294-318 | All children inherit, nothing below them is touched |
| `MenuFinalize.Menus.AbsorbLoop` | openwrt-sdk/scripts/config/menu.c:325-346 | Takes in the siblings that follow, each of which passed the test and is finalised below the entry, up to the end or to one that did not pass |
| `MenuFinalize.Menus.Absorb` | openwrt-sdk/scripts/config/menu.c:321-351 | Those siblings, and no others, become the children; order, links and parents stay consistent, and the sibling that now follows did not pass |
| `MenuFinalize.Menus.AddDirect` | openwrt-sdk/scripts/config/menu.c:353-353 | The dependency of the entry, if it has one, becomes one more alternative for its symbol, and nothing else does |
| `MenuFinalize.Menus.Gather` | openwrt-sdk/scripts/config/menu.c:269-354 | Either branch finalises what ends up below the entry, in place where its hosts lead; an entry nothing was written under has its dependency noted for its symbol and the sibling noted that it stopped at |
| `MenuFinalize.Menus.Collect` | openwrt-sdk/scripts/config/menu.c:321-354 | For a symbol entry without children: what it took in is a stretch of the order in which every sibling is under the entry or another of them, ended by the last sibling or by one that did not pass |
| `MenuShape.RanHere` | openwrt-sdk/scripts/config/menu.c:325-351 | What an entry takes in is such a stretch, and if it ended with the siblings none is left in the rest of the order |
| `MenuFinalize.Menus.Splice` | openwrt-sdk/scripts/config/menu.c:395-404 | The children of a promptless entry become its next siblings, with their new parent |
| `MenuFinalize.Menus.Reparent` | openwrt-sdk/scripts/config/menu.c:396-400 | Exactly the children change parent, and the last one is found |
| `MenuFinalize.Menus.FlattenKids` | openwrt-sdk/scripts/config/menu.c:355-405 | Afterwards only entries with a prompt have children, in the same pre-order |
| `MenuFinalize.Menus.Finalize` | openwrt-sdk/scripts/config/menu.c:262-424 | The recursion keeps the pre-order and all links, finalises what ends up below the entry once each in that order, hangs each of them where its hosts lead past entries without a prompt, and looks into nothing beside it |
| `MenuFinalize.Menus.Settle` | openwrt-sdk/scripts/config/menu.c:395-424 | Flattening keeps every entry where its hosts lead; the alternative prompt and m is added to the reverse dependency exactly of a symbol that is not optional and has a prompt |
| `MenuFinalize.Menus.FinalizeAll` | openwrt-sdk/scripts/config/menu.c:262-424 | From the root: every entry is finalised exactly once, in the order the parser wrote them; every entry that was taken in passed the test after a childless sibling, every such sibling stopped at the end or at one that did not pass; the parent of every entry is the first entry with a prompt or the root on its chain of hosts; reverse and direct dependencies hold the alternatives of the entries and no others; the walk visits the same order |
| `MenuShape.EndsUpOnce` | openwrt-sdk/scripts/config/menu.c:395-404 | The entry at which a chain of hosts ends is unique, so the finished tree is determined by who took in whom |
| `MenuShape.PlacedAll` | openwrt-sdk/scripts/config/menu.c:395-404 | In a flat tree hung along the hosts the parent of every entry is where its chain ends |
| `MenuFinalize.ShownWithinParent` | openwrt-sdk/scripts/config/menu.c:294-311 | A finished entry can be met only where the entry it was written under lets it |
| `MenuFinalize.InheritedValue` | openwrt-sdk/scripts/config/menu.c:288-311 | The dependency of a finished entry is its own and what the entry above lets through (the choice set, its prompt, or its dependency), that of each property this and its own condition, exactly where not m; nothing else of a property changes |
| `MenuFinalize.EntryParts` | openwrt-sdk/scripts/config/menu.c:322-327 | What the absorption test reads of an entry is the condition of its prompt, or its dependency |
| `MenuFinalize.ShownWithinAll` | openwrt-sdk/scripts/config/menu.c:294-311 | And so for every entry above it up to the root |
| `MenuFinalize.AbsorbedShown` | openwrt-sdk/scripts/config/menu.c:322-345 | For every entry that was taken in: it passed the test after the sibling that took it in, and the exact condition of BelowExact holds of the two |
| `MenuFinalize.SelectsHonoured` | openwrt-sdk/scripts/config/menu.c:312-316 | After finalisation and calculation a selected symbol is at least the minimum of selector and condition |
| `Startup.MarkerRepeats` | openwrt-sdk/scripts/config/menu.c:61-62 | The symbol property of an entry repeats, after finalisation, every symbol of the dependency of the entry but the constants |
| `Startup.TableCovered` | openwrt-sdk/scripts/config/menu.c:353-353 | In the table built from a finished tree, every symbol of a direct dependency but the constants is among the edges the cycle check follows |
| `Startup.TableClosed` | openwrt-sdk/scripts/config/menu.c:294-318 | Its edges stay within the symbol table, and the constants have none |
| `Startup.FinishedHonours` | openwrt-sdk/scripts/config/menu.c:312-316 | Under any solution for that table every select of every entry is honoured |
| `Startup.FinishedAsks` | openwrt-sdk/scripts/config/menu.c:312-316 | What raises a symbol is exactly the strongest of selector and condition over all selects that name it and of prompt and m where it cannot be left unset; without prompt and default that is its value |
| `Startup.PropsOfConcat` | openwrt-sdk/scripts/config/symbol.c:1226-1246 | The property list of a symbol is that of its entries, one entry after the other in the order of the file, and of no other entry |
| `Startup.FinalizeTree` | openwrt-sdk/scripts/config/zconf.y:528-528 | Any parsed tree is finalised into entries that inherit from the entries they were written under, hang where their hosts lead, and make up the dependencies in the table, with nothing added |
| `Startup.CheckTable` | openwrt-sdk/scripts/config/zconf.y:529-534 | Over that table a cycle is reported if and only if there is one, and silence gives the ranking that evaluation needs |
| `Startup.Load` | openwrt-sdk/scripts/config/zconf.y:528-534 | From parse tree to values: the finished tree and the table are those the parsed entries lead to, a recursive dependency is reported if and only if that table has one, otherwise every symbol calculated in any order gets the only value its definitions allow, all selects in the tree are honoured, and no symbol is raised by anything else |
| `ConfigText.UnescapeUndoes` | openwrt-sdk/scripts/config/symbol.c:903-944 | Unescaping gives back every escaped string, whatever follows its closing quote |
| `ConfigText.LineRoundTrip` | openwrt-sdk/scripts/config/confdata.c:479-500 | Reading the line printed for a symbol sets exactly its value |
| `ConfigText.PrintedAs` | openwrt-sdk/scripts/config/confdata.c:479-500 | n prints as the comment line, every other value as an assignment, a string in quotes with quotes and backslashes escaped |
| `ConfigText.ReadAs` | openwrt-sdk/scripts/config/confdata.c:124-144 | A bool or tristate is read by its first letter, m only for a tristate |
| `ConfigText.NumbersRead` | openwrt-sdk/scripts/config/symbol.c:540-581 | Which numbers are valid: a sign but no leading zero, hexadecimal digits with or without a prefix |
| `ConfigText.PassedOver` | openwrt-sdk/scripts/config/confdata.c:318-372 | Lines that are neither such a comment nor an assignment set nothing |
| `ConfigText.FileRoundTrip` | openwrt-sdk/scripts/config/confdata.c:315-375 | Reading the printed file assigns every listed value in turn, whatever was set before |
| `ConfigText.ValuesRestored` | openwrt-sdk/scripts/config/confdata.c:315-375 | With distinct names each symbol has its value back and no other is set |
| `ConfigText.StringRestored` | openwrt-sdk/scripts/config/confdata.c:153-166 | A string value survives writing and reading if and only if it has no newline |
| `ConfigText.QuoteEscaped` | openwrt-sdk/scripts/config/symbol.c:903-944 | Inside an escaped string a quote always follows a backslash |
| `ConfigText.NoClosingQuote` | openwrt-sdk/scripts/config/confdata.c:156-166 | No beginning of an escaped string is accepted as a whole one |
| `ConfigFile.EscapeStringValue` | openwrt-sdk/scripts/config/symbol.c:903-944 | The two passes agree: the text is the quoted escaped string and the measured length is exactly its length with the terminator |
| `ConfigFile.DeleteAt` | openwrt-sdk/scripts/config/confdata.c:161-161 | The memmove removes one character and keeps the terminator |
| `ConfigFile.UnescapeInPlace` | openwrt-sdk/scripts/config/confdata.c:153-166 | The in-place loop leaves the unescaped text in the buffer, or fails exactly when no closing quote is found |
| `ConfigFile.Reader.SetSymVal` | openwrt-sdk/scripts/config/confdata.c:120-183 | Sets the value a text stands for by type, or leaves the symbol alone if it is invalid |
| `ConfigFile.Reader.ReadLine` | openwrt-sdk/scripts/config/confdata.c:318-375 | Taking a line apart by writing NULs into it has the effect of parsing the original line |
| `ConfigFile.GetLine` | openwrt-sdk/scripts/config/confdata.c:206-238 | Yields the next line with its newline, and the last one without |
| `ConfigFile.ReadConfig` | openwrt-sdk/scripts/config/confdata.c:315-375 | The reading loop applies all lines of the text in order |
| `ConfigFile.PrintSymbol` | openwrt-sdk/scripts/config/confdata.c:621-640 | Prints the line of the symbol, with strings escaped and n as a comment |
| `ConfigFile.WriteSymbols` | openwrt-sdk/scripts/config/confdata.c:782-800 | Each flagged symbol met on the walk is written once, however often it is met, and nothing else |
| `ConfigFile.WriteThenRead` | openwrt-sdk/scripts/config/confdata.c:315-375 | Writing and reading again restores exactly the written values |
| `Saving.StepReloaded` | openwrt-sdk/scripts/config/confdata.c:405-425 | With all values read back as user values a symbol keeps its value if and only if it is invisible, not a truth value, within its visibility or equal to its reverse dependency |
| `Saving.ReloadExact` | openwrt-sdk/scripts/config/confdata.c:405-425 | All symbols keep their values if and only if each of them would |
| `Saving.Unsteady` | openwrt-sdk/scripts/config/confdata.c:405-425 | A tristate prompted for at m with the default y is one that would not |
| `Saving.VisibleMet` | openwrt-sdk/scripts/config/confdata.c:782-800 | Every visible symbol is met on the walk, so its value is in the file |
| `Saving.MetIs` | openwrt-sdk/scripts/config/confdata.c:782-800 | The symbols met on the walk are those of the entries that have a name and a type |
| `Saving.SaveAndReload` | openwrt-sdk/scripts/config/confdata.c:782-815 | Calculating, writing, reading back and recalculating a whole configuration: exactly the written symbols that are met come back, each with its value, and all symbols have their old values if and only if every visible bool or tristate symbol was within its visibility or equal to its reverse dependency |
| `Saving.BuiltSaves` | openwrt-sdk/scripts/config/confdata.c:782-800 | What loading a parsed tree returns can be saved this way |
| `Crc.ByTable` | openwrt-sdk/tools/firmware-utils/src/mkmylofw.c:297-306 | Eight steps of the shift register are one table row and a byte shift, for every register |
| `Crc.LookUp` | openwrt-sdk/tools/firmware-utils/src/mkmylofw.c:297-306 | One table look-up is the bit-serial treatment of a byte |
| `Crc.UpdatedConcat` | openwrt-sdk/tools/firmware-utils/src/mkmylofw.c:297-306 | Updating over consecutive chunks equals one update over their concatenation |
| `Crc.KnownCrc` | openwrt-sdk/tools/firmware-utils/src/mkmylofw.c:297-317 | The checksum of nothing is 0 and that of the letter a is 0xe8b7be43 |
| `Crc.TablesEqual` | openwrt-sdk/tools/firmware-utils/src/add_header.c:43-56 | Two tables that both hold the rows of the register are equal |
| `Crc.Pattern` | openwrt-sdk/tools/firmware-utils/src/mkmylofw.c:275-281 | The exponents give the reflected polynomial |
| `Crc.MarkedRow` | openwrt-sdk/tools/firmware-utils/src/mkmylofw.c:285-292 | Feeding the index bit by bit up to its marker yields the row of the register |
| `Crc.InitCrcTable` | openwrt-sdk/tools/firmware-utils/src/mkmylofw.c:264-294 | The table holds the row of every byte |
| `Crc.ShiftedRow` | openwrt-sdk/tools/firmware-utils/src/add_header.c:48-54 | Shifting the index itself yields the same row |
| `Crc.InitCrc32` | openwrt-sdk/tools/firmware-utils/src/add_header.c:43-56 | The second construction fills the same table |
| `Crc.UpdateCrc` | openwrt-sdk/tools/firmware-utils/src/mkmylofw.c:296-306 | The table-driven loop equals the bit-serial register on every byte string |
| `Crc.GetCrc` | openwrt-sdk/tools/firmware-utils/src/mkmylofw.c:309-317 | Equals the reflected CRC-32 |
| `Crc.Crc32Buf` | openwrt-sdk/tools/firmware-utils/src/add_header.c:58-65 | Equals the same CRC-32 |
| `BuffaloCipher.CryptTwice` | openwrt-sdk/tools/firmware-utils/src/buffalo-lib.c:154-178 | Applying the cipher twice with the same seed, key and state mode gives back the data |
| `BuffaloLaws.ScheduleRuns` | openwrt-sdk/tools/firmware-utils/src/buffalo-lib.c:87-117 | The schedule is a run from the low byte of every index in which step i exchanges cell i with the cell that the sum of key bytes and bytes found so far points to |
| `BuffaloLaws.RunEndsInSchedule` | openwrt-sdk/tools/firmware-utils/src/buffalo-lib.c:105-114 | Every such run ends in that state, so there is only one |
| `BuffaloLaws.FirstPartner` | openwrt-sdk/tools/firmware-utils/src/buffalo-lib.c:107-113 | The first cell is exchanged with the one the first key byte points to |
| `BuffaloLaws.KeysDecide` | openwrt-sdk/tools/firmware-utils/src/buffalo-lib.c:107-114 | Two keys make the same exchanges if and only if they agree, modulo the state length, at every step |
| `BuffaloLaws.RunsPart` | openwrt-sdk/tools/firmware-utils/src/buffalo-lib.c:107-114 | Where two keys first differ another cell is exchanged |
| `BuffaloLaws.DoubledKey` | openwrt-sdk/tools/firmware-utils/src/buffalo-lib.c:154-178 | A key written twice with the seed between gives the same cipher |
| `BuffaloLaws.KeysMatter` | openwrt-sdk/tools/firmware-utils/src/buffalo-lib.c:154-178 | Two keys that give different ciphers |
| `BuffaloLaws.SchedulePermutes` | openwrt-sdk/tools/firmware-utils/src/buffalo-lib.c:104-114 | With the default length every byte stands in the state exactly once |
| `BuffaloLaws.TurnLaw` | openwrt-sdk/tools/firmware-utils/src/buffalo-lib.c:130-140 | Each turn of the generator moves on by one, adds what it finds, exchanges the two cells and gives out the cell their sum points to, indices cut to a byte |
| `BuffaloLaws.CryptAt` | openwrt-sdk/tools/firmware-utils/src/buffalo-lib.c:139-139 | Byte k of the result is byte k of the data with the output of turn k + 1, the state length being that of the data or 256 |
| `BuffaloLaws.XorByteBits` | openwrt-sdk/tools/firmware-utils/src/buffalo-lib.c:139-139 | Each bit is flipped where the other byte has it set |
| `BuffaloLaws.KnownAnswer` | openwrt-sdk/tools/firmware-utils/src/buffalo-lib.c:154-178 | Four bytes and what they are crypted to |
| `BuffaloCipher.BcryptInit` | openwrt-sdk/tools/firmware-utils/src/buffalo-lib.c:87-117 | The swaps in the array are the key schedule, for every state length including those above 256 |
| `BuffaloCipher.BcryptProcess` | openwrt-sdk/tools/firmware-utils/src/buffalo-lib.c:119-146 | Source and destination may overlap in one buffer as long as the destination is not after the source; the rest is untouched |
| `BuffaloCipher.BcryptBuf` | openwrt-sdk/tools/firmware-utils/src/buffalo-lib.c:154-178 | The destination holds the cipher of what the source held |
| `BuffaloContainer.GetPut` | openwrt-sdk/tools/firmware-utils/src/buffalo-lib.c:230-248 | Big-endian numbers read back as written |
| `BuffaloFormat.NumberPut` | openwrt-sdk/tools/firmware-utils/src/buffalo-lib.c:230-248 | The most significant byte comes first |
| `BuffaloFormat.KnownChecksums` | openwrt-sdk/tools/firmware-utils/src/buffalo-lib.c:180-193 | Checksums of nothing, of a zero byte and of a byte with its sign bit set |
| `BuffaloFormat.ParseExact` | openwrt-sdk/tools/firmware-utils/src/buffalo-lib.c:347-396 | Exactly the containers with a known magic, product and version lengths of at most 32 and 8 and room for every field pass, and each field is taken from where it stands |
| `BuffaloFormat.EncodedBytes` | openwrt-sdk/tools/firmware-utils/src/buffalo-lib.c:261-321 | Where encryption writes magic, seed, lengths, parts and checksum, each part keyed by the first byte written of the one before |
| `BuffaloFormat.OpenedBytes` | openwrt-sdk/tools/firmware-utils/src/buffalo-lib.c:386-412 | What decryption makes of those bytes, nothing if the checksum differs |
| `BuffaloFormat.Rejected` | openwrt-sdk/tools/firmware-utils/src/buffalo-lib.c:347-396 | Any other input is refused |
| `BuffaloContainer.BuffaloCsum` | openwrt-sdk/tools/firmware-utils/src/buffalo-lib.c:180-193 | The loop computes the checksum, with bytes sign-extended as a plain char is |
| `BuffaloContainer.ParseLayout` | openwrt-sdk/tools/firmware-utils/src/buffalo-lib.c:323-375 | Every container that is laid out within the limits passes all length checks and parses to its parts, whatever follows it |
| `BuffaloContainer.RoundTrip` | openwrt-sdk/tools/firmware-utils/src/buffalo-lib.c:261-419 | Opening an encoded container succeeds if and only if its checksum is that of the data, and then restores product, version and data although each stage is keyed by the cipher of the one before |
| `BuffaloContainer.EncryptBuf` | openwrt-sdk/tools/firmware-utils/src/buffalo-lib.c:261-321 | Encryption in place writes the encoded container and nothing behind it |
| `BuffaloContainer.DecryptBuf` | openwrt-sdk/tools/firmware-utils/src/buffalo-lib.c:323-419 | On any input, decryption over its own buffer fails or succeeds as the definition says and leaves the data at the start |
| `BuffaloContainer.EncryptDecrypt` | openwrt-sdk/tools/firmware-utils/src/buffalo-lib.c:261-419 | Both in one buffer: everything is restored if and only if the checksum was right |
| `Md5.PadLenIsLeast` | openwrt-sdk/tools/firmware-utils/src/md5.c:176-178 | The padding is the least of at least one byte that leaves room for the length |
| `Md5.InitialBytes` | openwrt-sdk/tools/firmware-utils/src/md5.c:105-116 | The initial words are those of section 3.3 of RFC 1321, written out byte by byte in the order of the digest |
| `Md5.WordBytes` | openwrt-sdk/tools/firmware-utils/src/md5.c:145-150 | Words are read with the low-order byte first |
| `Md5.PaddedBytes` | openwrt-sdk/tools/firmware-utils/src/md5.c:160-186 | The padded message is the message, 0x80, zeros, and the bit length modulo 2^64 with the low-order byte first |
| `Md5.AbsorbBlocks` | openwrt-sdk/tools/firmware-utils/src/md5.c:140-153 | Blocks are taken in one after the other, starting from the initial words |
| `Md5.CountsMore` | openwrt-sdk/tools/firmware-utils/src/md5.c:134-138 | The two counter words hold the bit length modulo 2^64 after every call, carry included |
| `Md5.MoreWaiting` | openwrt-sdk/tools/firmware-utils/src/md5.c:140-142 | A byte that does not fill the block only waits |
| `Md5.FullBlock` | openwrt-sdk/tools/firmware-utils/src/md5.c:144-152 | A byte that fills it makes the chain that of the longer message |
| `Md5.LastBlock` | openwrt-sdk/tools/firmware-utils/src/md5.c:169-186 | The buffered words and the saved counters are the last block of the padded message |
| `Md5.Context.constructor` | openwrt-sdk/tools/firmware-utils/src/md5.c:105-116 | A new context stands for the empty message |
| `Md5.Context.Update` | openwrt-sdk/tools/firmware-utils/src/md5.c:122-155 | Feeding bytes to a context for m makes it one for m with the bytes appended |
| `Md5.Context.Final` | openwrt-sdk/tools/firmware-utils/src/md5.c:160-199 | The digest is the block function folded over the padded message |
| `Md5.HashChunks` | openwrt-sdk/tools/firmware-utils/src/md5.c:105-199 | For every message, every way of cutting it into calls and every block function the digest is that of the whole |

## Left out

- The menu and line interfaces (`mconf.c`, `conf.c`, `lxdialog`), help text, regex search and change notification: user interface.
- Opening, renaming and splitting files, environment lookups, `conf_split_config`, `util.c`: input and output; the text of a file is a parameter.
- Freeing memory and allocation failure: trees are values reached through paths, so the model speaks of their contents only.
- `expr_transform`, `expr_eliminate_yn`, `expr_eliminate_eq`, `expr_extract_eq` and `expr_trans_bool` overwrite nodes of trees they own; they are functions here, and only the duplicate passes, whose two pointers share a tree, are modelled in place.
- Ranges and `P_ENV` symbols: they add cases without harder properties, and the cycle check does not follow range operands.
- `expr_simplify_unmet_dep` and all warnings: text only.
- Choice groups inside `DepCheck`, `SymbolCalc` and `MenuFinalize` (member types, `P_CHOICE` lists, the re-propagation for tristate choices): `Choice` models one boolean group that is not optional, with the symbols around it as given values.
- SymbolCalc.Engine.SetTristate: a change of MODULES itself is not modelled, because `modules_val` is fixed during evaluation.
- Startup.Load: an entry for a choice takes part as an ordinary symbol, and the default that `option modules` gives to MODULES (menu.c:190-193) is not among its properties.
- ConfigFile.ReadConfig: values for the automatic configuration (`S_DEF_AUTO`, `S_OTHER`) and the choice state updated per line are not modelled; a line shorter than the `memcmp` that inspects it counts as not matching.
- Absorption.BelongsBelow: the reduced comparisons are described by all that duplicate elimination guarantees of its result (value, fixed form, when it changes nothing), not by a function that computes them.
- Saving.SaveAndReload: choices and a change of MODULES through the file are not modelled; that `conf_read` then forgets the user values of invisible symbols changes no value here.
- ConfigFile.WriteSymbols: headings and comment lines between the symbols are not printed.
- MenuFinalize.Menus.FlattenKids: a prompt whose text is missing is not told apart from one with text; the parser always gives one.
- Crc.InitCrc32: `ntohl` is modelled for a little-endian host; on a big-endian one the polynomial would differ.
- Md5.HashChunks: the block function is a parameter, so the 64 steps of `Transform` are not spelled out.
- `buffalo_crc`, the Buffalo tag and the command-line tools around the container; `decrypt_file` clears the parameter structure, so its own caller never sets the long state mode that `decrypt_buf` supports.
- The other image builders, `mkhilinkfw.c`, `px5g.c`, the header files of formats and the Python scripts: short checksums, option parsing and layouts.
