# Kconfig in Buildroot, off-screen memory and boot timings: a Dafny model

Buildroot describes its configuration in the Kconfig language. Two programs in the tree evaluate it: the C
engine in `support/kconfig` and the Python library `support/scripts/kconfiglib.py`. This project models their
algorithms and proves what users rely on. It also covers the off-screen memory manager of the Qt frame buffer
driver and the hand-over of boot timings in U-Boot. Run `dafny verify dfyconfig.toml` to check everything.

| part | files |
|---|---|
| three-valued logic, expressions | `Tristate`, `Expressions` |
| rewriting of dependency expressions in C | `ExprCompare`, `ExprTransform`, `Spine`, `ExprJoin`, `ExprDups`, `ExprCancel` |
| symbol values in C, with the valid flag as a memo | `Config`, `Meaning`, `Texts`, `Evaluate`, `Evaluation`, `Calculated`, `SymbolTable` |
| recursion check | `Graphs`, `DepCheck`, `ConfigTheorems`, `Recursion`, `RangeLoop` |
| menu tree: automatic submenus, promotion, the stackless walk | `MenuForest`, `MenuShape`, `Submenus`, `MenuHeap`, `MenuFinalize`, `ConfWrite` |
| members of a choice in both tools | `ChoiceScan` |
| Kconfiglib: values, dependency closure, caches, whole runs | `KExpr`, `KModel`, `KMeaning`, `KSolve`, `KFrame`, `KDeps`, `KCaches`, `KCache`, `KSession`, `KStale`, `KTheorems` |
| expressions in both tools | `Engines` |
| Kconfiglib: printer and parser | `ExprText`, `ExprTokens` |
| strings in `.config` files, both tools | `Escape` |
| off-screen memory manager | `OffscreenPool` |
| boot timing stash | `BootStage` |

## How it is modelled

- Trees that C code rewrites through two aliased `struct expr **` are values; such a place is a path in the
  chain of one operator, so a store through one is seen through the other.
- What a symbol's value is, is an equation over the values of the symbols it mentions (`Config.ValueFor`,
  `KModel.ResultIn`). An acyclic configuration has exactly one solution. The memoised, mutating evaluators are
  classes. Those of Kconfiglib are proved to arrive at that solution from every cache state that occurs. Those of the C
  engine are proved to do what the functions in `Evaluate` say, also on cyclic configurations; these functions are
  proved to arrive at the solution where there is an order. `Meaning` and `KMeaning` say what the value is a second
  time, over the properties of a symbol and without following the loops, and prove that the equations say just that.
- In Kconfiglib MODULES is a symbol like any other. Its value is asked for, and cached, whenever something evaluates
  to m, so it belongs to what a symbol reads unless nothing about that symbol can be m (`KModel.TwoValued`).
- The menu tree is three maps `next`, `list` and `parent`; the code that relinks entries is proved to build the
  tree of a recursive function on forests, and the properties are proved of that function.
- `strtoll`, `int()` and their inverses are parameters; files are sequences of characters or bytes.

## What the code does not do

- The cancelling rule of `expr_eliminate_dups2` is not exact for m (`ExprCancel.CancelDecidesMod`); it is exact
  if and only if the value is not m (`ExprDups.CancelAtRefines`).
- The value that `sym_check_deps` returns from its outermost call is always NULL, so the error counter in
  `zconf.y` never counts a recursion, although each is printed (`DepCheck.Checker.CheckAll`).
- Range bounds are not followed by that check, and what two ints that bound each other end up as depends on which is
  asked for first (`RangeLoop.TwoOrders`). Values are determined where no symbol reads itself, which is exactly where
  they can be ordered (`ConfigTheorems.OrderedIffAcyclic`).
- Setting a tristate symbol to the value it already has skips the range test, and the value can be lost
  (`ConfigTheorems.AcceptedValueLost`; the exact condition is `Config.SameValueKept`).
- The C tools and Kconfiglib can disagree on the members of a choice in two ways (`ChoiceScan.PromptlessMember`,
  `ChoiceScan.CommentBetween`); they agree if and only if every symbol has the same standing with both
  (`ChoiceScan.ToolsAgree`).
- In Kconfiglib two bool members of a tristate choice in m mode can be y together
  (`KTheorems.TwoMembersSelected`, `KTheorems.MembersTogether`).
- `get_assignable_values` lists values that do not stick: m for bools, which refuse it, m without modules or in a bool
  choice, n for the selected member (`KTheorems.BoolListsM`; exactly: `KTheorems.AssignableSticks`).
- Kconfiglib does not link MODULES to the symbols it matters to, nor a choice to what makes its defaults visible. Reads
  can be stale after a change that reaches MODULES (`KStale.StaleAfterSet`, `KStale.StaleAfterUnset`) or that hides a
  default which is no member (`KStale.StaleSelection`). The caches are right if and only if neither happens
  (`KCaches.InvalidationExact`), and runs of commands that cannot cause it are always right (`KSession.Config.Run`).
- Clearing the client that holds the first entry of the off-screen pool loses the memory above the first block left
  (`OffscreenPool.ClearLoses`, `OffscreenPool.Pool.ServeAll`), and once the table is empty the next block cannot be
  given back (`OffscreenPool.UncacheRestores`).
- `bootstage_unstash` accepts a buffer that is too short by the size of the header (`BootStage.ShortStashAccepted`);
  it stays inside exactly under `BootStage.NamesPresentIff`.

## Model

| member | source | states |
|---|---|---|
| `ExprCompare.EliminateYnCorrect` | support/kconfig/expr.c:231-312 | folding constants keeps the value under every well-typed valuation, and no foldable constant is left |
| `ExprCompare.EliminateYnIdempotent` | support/kconfig/expr.c:231-312 | a folded expression is left alone |
| `ExprCompare.EliminateYnShrinks` | support/kconfig/expr.c:231-312 | any other expression loses nodes |
| `ExprCompare.ExprEqSound` | support/kconfig/expr.c:189-229 | `expr_eq` holds only of expressions with the same value under every well-typed valuation |
| `ExprCompare.ExprEqReflexive` | support/kconfig/expr.c:189-229 | `expr_eq` holds of every expression and itself, although it works by cutting both apart |
| `ExprCompare.CutEqSplits` | support/kconfig/expr.c:130-162 | both inputs are one common value combined by the operator with their remainders |
| `ExprCompare.EliminateEqSplits` | support/kconfig/expr.c:164-187 | the same for the entry point, which cuts for one operator, then for the other |
| `ExprCompare.CutEqMaximal` | support/kconfig/expr.c:130-162 | after the cut no operand of one remainder equals an operand of the other, constants aside |
| `ExprCompare.CutEqOperands` | support/kconfig/expr.c:130-162 | a remainder has only operands the input had, or the neutral constant |
| `ExprCompare.CutInTurn` | support/kconfig/expr.c:130-162 | cutting against a chain is cutting against its parts in turn |
| `ExprCompare.CutSelf` | support/kconfig/expr.c:130-162 | cutting an expression against itself leaves constants only |
| `ExprCompare.ExtractSplits` | support/kconfig/expr.c:848-875 | with any common part found so far, both inputs are the common part combined with their remainder |
| `ExprCompare.ExtractEqSplits` | support/kconfig/expr.c:826-846 | the same for `expr_extract_eq_and` and `expr_extract_eq_or`, which start from no common part |
| `ExprCompare.ExtractMaximal` | support/kconfig/expr.c:848-875 | the remainders share no operand, and have only operands the inputs had or the neutral constant |
| `ExprTransform.Transform` | support/kconfig/expr.c:636-771 | never raises the weighted size that makes the recursion end |
| `ExprTransform.TransformPreservesValue` | support/kconfig/expr.c:636-771 | the value is kept under every well-typed valuation |
| `ExprTransform.TransformNormalizes` | support/kconfig/expr.c:636-771 | the result is in negation normal form: no negation but of a symbol that is not a constant, no boolean symbol compared with y, m or n |
| `ExprTransform.TransformFixesNormal` | support/kconfig/expr.c:636-771 | an expression in that form is left alone |
| `ExprTransform.TransformIdempotent` | support/kconfig/expr.c:636-771 | transforming twice is transforming once |
| `ExprJoin.JoinOrExact` | support/kconfig/expr.c:346-408 | where two operands of a disjunction are joined, the result has the value of their disjunction, in three values |
| `ExprJoin.JoinAndExact` | support/kconfig/expr.c:410-502 | the same for a conjunction |
| `ExprJoin.JoinExact` | support/kconfig/expr.c:346-502 | both connectives at once |
| `ExprJoin.JoinSelf` | support/kconfig/expr.c:346-502 | two copies of an expression always join to it |
| `ExprDups.Dups1` | support/kconfig/expr.c:504-554 | two aliased places in one operator chain, as paths: chain shape kept, no node added, unchanged exactly when nothing is counted, and a counted rewrite can be folded to something smaller |
| `ExprDups.Dups1Exact` | support/kconfig/expr.c:504-554 | the pass keeps the value exactly in three values |
| `ExprDups.Dups1Complete` | support/kconfig/expr.c:504-554 | if any pair of operands could be joined, the pass rewrites something |
| `ExprDups.CancelAt` | support/kconfig/expr.c:556-610 | the test that replaces an operand by a constant keeps the chain and saves nodes when it fires |
| `ExprDups.CancelAtRefines` | support/kconfig/expr.c:571-605 | a cancelled chain keeps its value if and only if that value was not m; otherwise m becomes decided |
| `ExprCancel.Dups1Quiet` | support/kconfig/expr.c:504-554 | where no two operands can be joined, at any level, the first pass changes nothing |
| `ExprCancel.CancelDecidesMod` | support/kconfig/expr.c:556-634 | with both symbols m, (a or b) and (not a and not b) is m, but the whole loop turns it into the constant n |
| `ExprDups.Dups2` | support/kconfig/expr.c:556-610 | the same bookkeeping for the second pass |
| `ExprDups.Dups2Refines` | support/kconfig/expr.c:556-610 | the pass only ever moves the value up in the information order |
| `ExprDups.Pass` | support/kconfig/expr.c:612-634 | a round that counts anything leaves, after folding, strictly fewer nodes, so the loop ends |
| `ExprDups.EliminateDups` | support/kconfig/expr.c:612-634 | the loop computes the fixed point `Simplified`, for NULL and for every expression |
| `ExprDups.SimplifiedRefines` | support/kconfig/expr.c:612-634 | the result is at or above the original in the information order, so n and y are kept; it is equal whenever no cancellation happens on the way |
| `ExprDups.SimplifiedExactTwoValued` | support/kconfig/expr.c:612-634 | without m in symbols or constants the value is kept exactly |
| `ExprDups.SimplifiedStable` | support/kconfig/expr.c:612-634 | the result is a fixed point, is not larger, and has no pair of operands left to join |
| `Config.ValueLocal` | support/kconfig/symbol.c:293-440 | the value of a symbol depends on the symbols its properties mention and on nothing else |
| `Config.SolutionUnique` | support/kconfig/symbol.c:293-440 | an acyclic choice-free configuration has at most one assignment that satisfies the equation of every symbol |
| `Config.SolutionExists` | support/kconfig/symbol.c:293-440 | and at least one |
| `Config.SelectedValue` | support/kconfig/symbol.c:339-384 | every boolean or tristate symbol is at least the value of the expression that selects it, and m only where that is allowed |
| `Config.SolutionWellTyped` | support/kconfig/symbol.c:293-440 | the computed values are typed as the expression rewritings assume |
| `Config.AssignedFrame` | support/kconfig/symbol.c:493-527 | setting a symbol changes no symbol of lower rank |
| `Config.AssignedStatus` | support/kconfig/symbol.c:189-227 | nor the visibility and the reverse dependency of the symbol itself |
| `Config.AcceptedValueSticks` | support/kconfig/symbol.c:474-527 | a value that `sym_tristate_within_range` accepts is the value the symbol has after recalculation |
| `Config.WithinRangeIff` | support/kconfig/symbol.c:474-491 | where a symbol is shown above what selects it, the values in range are exactly those that are kept; where it is shown no higher, every assignment leads to the value that selects it |
| `Meaning.SolutionMeans` | support/kconfig/symbol.c:293-440 | values solve the equations if and only if each means what it should, stated over prompts, defaults, user values, reverse dependencies and ranges without following a loop: selected, or given and shown, or else by default; the text given, or of the default, moved to the bound it violates |
| `Meaning.ValueIs` | support/kconfig/symbol.c:293-440 | the same for one symbol, for every value it could have |
| `Meaning.WriteIs` | support/kconfig/symbol.c:339-384 | SYMBOL_WRITE is set if and only if the symbol is shown, selected or has an active default |
| `Meaning.VisibleIs` | support/kconfig/symbol.c:189-206 | the visibility is m or y if and only if some prompt is, with m raised to y for all but tristates with modules |
| `Meaning.DependenciesAre` | support/kconfig/symbol.c:207-227 | the direct dependency is y if and only if it is missing or not n; the reverse dependency is reached by the selecting expression |
| `Meaning.ActiveIs` | support/kconfig/symbol.c:115-137 | the default or range in force is the first whose condition is not n |
| `Meaning.OnlySelected` | support/kconfig/symbol.c:339-384 | a symbol with neither shown prompt nor active default is exactly what selects it, m raised to y where it acts as a boolean |
| `Texts.StringValid` | support/kconfig/symbol.c:552-593 | the texts an int or hex symbol takes: digits after an optional sign without leading zeros, hex digits after an optional 0x |
| `Texts.AcceptedTextSticks` | support/kconfig/symbol.c:595-684 | an accepted text is the value from then on if and only if a prompt is shown or the symbol had that value before; accepting does not ask whether it is shown |
| `Config.SameValueKept` | support/kconfig/symbol.c:493-527 | setting a symbol to the value it has, which skips the range test, survives recalculation if and only if the symbol is invisible, the value is within the visibility, or it equals the reverse dependency |
| `Evaluate.CalcValue` | support/kconfig/symbol.c:293-440 | on every configuration, cyclic or not, evaluation ends, keeps what is valid, and leaves the symbol valid |
| `Evaluation.ExprFits` | support/kconfig/expr.c:938-977 | where values can be ordered, evaluating an expression over a table that is right as far as it is valid computes its value in the solution and keeps the table right |
| `Evaluation.PromptsFit` | support/kconfig/symbol.c:189-200 | so does the maximum of the prompt conditions |
| `Evaluation.FindFits` | support/kconfig/symbol.c:115-137 | so does the search for the first default or range whose condition is not n |
| `Evaluation.DirFits` | support/kconfig/symbol.c:210-218 | so does the direct dependency |
| `Evaluation.RevFits` | support/kconfig/symbol.c:219-227 | so does the reverse dependency |
| `Evaluation.VisibilityFits` | support/kconfig/symbol.c:189-227 | `sym_calc_visibility` stores what the solution says of visibility, direct and reverse dependency |
| `Evaluation.TruthFits` | support/kconfig/symbol.c:339-384 | the boolean and tristate case gives value and write flag of the solution |
| `Evaluation.TextFits` | support/kconfig/symbol.c:385-407 | so does the string, int and hex case |
| `Evaluation.ClampFits` | support/kconfig/symbol.c:173-187 | the text is kept inside the range of the solution and replaced by the violated bound outside |
| `Evaluation.RangeFits` | support/kconfig/symbol.c:155-187 | the whole of `sym_validate_range` |
| `Evaluation.RecalculateFits` | support/kconfig/symbol.c:314-440 | with the valid flag set first, so that the symbol can be seen unfinished, all that is remembered of it ends up as the solution says |
| `Evaluation.ValueFits` | support/kconfig/symbol.c:293-440 | `sym_calc_value` gives the symbol its value in the solution, whatever was valid before |
| `Evaluation.EachSolves` | support/kconfig/symbol.c:293-440 | asking for all symbols, in whatever order, makes the table the one solution |
| `Calculated.CellIs` | support/kconfig/symbol.c:189-440 | all that is remembered of a valid symbol, its value, visibility, dependencies and flag, means what it should |
| `SymbolTable.Table.CalcExpr` | support/kconfig/expr.c:938-977 | the method changes the table and answers as the function does, on every configuration |
| `SymbolTable.Table.CalcPrompts` | support/kconfig/symbol.c:189-200 | so does the loop over prompts |
| `SymbolTable.Table.FindActive` | support/kconfig/symbol.c:115-137 | so does the loop over properties, with its early exit |
| `SymbolTable.Table.CalcVisibility` | support/kconfig/symbol.c:189-227 | so does the visibility |
| `SymbolTable.Table.CalcTruth` | support/kconfig/symbol.c:339-384 | so does the boolean and tristate case |
| `SymbolTable.Table.CalcText` | support/kconfig/symbol.c:385-407 | so does the string, int and hex case |
| `SymbolTable.Table.Clamp` | support/kconfig/symbol.c:173-187 | so does the comparison with the bounds, the second only where the first holds |
| `SymbolTable.Table.Recalculate` | support/kconfig/symbol.c:314-440 | so does the recalculation, which shows the symbol as n or empty meanwhile |
| `SymbolTable.Table.CalcValue` | support/kconfig/symbol.c:293-440 | so does `sym_calc_value` |
| `SymbolTable.Table.CalcAll` | support/kconfig/symbol.c:293-440 | asking for all symbols, in any order and whatever was valid before, ends in the one solution; every value, visibility, dependency and flag then means what it should |
| `SymbolTable.Table.ClearAllValid` | support/kconfig/symbol.c:442-452 | only y, m and n stay valid, and the table fits every solution of the new configuration |
| `SymbolTable.Table.SetTristate` | support/kconfig/symbol.c:493-527 | accepted exactly for a value in range or the current value; refused without a change; otherwise only the user value changes and validity is dropped unless the value is the same |
| `SymbolTable.Table.SetAndRead` | support/kconfig/symbol.c:474-527 | set then read gives the value set, whenever the set is accepted |
| `SymbolTable.ReadFits` | support/kconfig/symbol.c:293-440 | `sym_calc_value` leaves in the table the value in the solution, with visibility, dependencies and flag, and these mean what they should |
| `SymbolTable.Table.StringWithinRange` | support/kconfig/symbol.c:595-635 | accepts exactly the texts of the right form within the first active range; bounds are evaluated on the way |
| `SymbolTable.Table.SetString` | support/kconfig/symbol.c:637-684 | an accepted text, with 0x put in front of hex numbers, becomes the user value and everything is evaluated anew unless it was that already; another changes nothing the user gave |
| `SymbolTable.Table.SetStringAndRead` | support/kconfig/symbol.c:637-684 | an accepted text is read back if and only if the symbol is shown or had that value; after a refusal the old value is |
| `DepCheck.Checker.constructor` | support/kconfig/symbol.c:1255-1287 | a fresh search has no flag set, an empty stack and no report |
| `DepCheck.Checker.CheckExpr` | support/kconfig/symbol.c:1153-1181 | all symbols of the expression are finished unless something was reported |
| `DepCheck.Checker.CheckProp` | support/kconfig/symbol.c:1196-1210 | the same for what one property leads to, selects and choices skipped |
| `DepCheck.Checker.CheckProps` | support/kconfig/symbol.c:1196-1210 | the same for all properties of a symbol |
| `DepCheck.Checker.CheckSymDeps` | support/kconfig/symbol.c:1184-1216 | the same for all edges of a symbol; flags and stack are restored |
| `DepCheck.Checker.Explore` | support/kconfig/symbol.c:1276-1286 | a symbol is finished; an answer is a symbol still under check and comes with a report |
| `DepCheck.Checker.CheckDeps` | support/kconfig/symbol.c:1255-1287 | the same with the flag tests in front |
| `DepCheck.Checker.CheckAll` | support/kconfig/zconf.y:510-513 | after the loop over all symbols a recursion was reported if and only if the graph has a cycle, although each find cuts the search short; the returned value never says so, hence the error count stays zero |
| `ConfigTheorems.CheckedIsOrdered` | support/kconfig/symbol.c:1184-1287 | a search without report yields an order of evaluation, where every symbol that is read is an edge the search follows |
| `ConfigTheorems.CheckedHasOneSolution` | support/kconfig/symbol.c:1184-1287 | such a configuration has exactly one solution |
| `ConfigTheorems.OrderedIffAcyclic` | support/kconfig/symbol.c:293-440 | values can be ordered if and only if no symbol reads itself, directly or by way of others |
| `ConfigTheorems.AcyclicHasOneSolution` | support/kconfig/symbol.c:293-440 | then there is exactly one solution, range bounds and direct dependencies included |
| `Recursion.CoversIff` | support/kconfig/symbol.c:1184-1216 | the check follows everything evaluation reads if and only if it follows elsewhere the direct dependencies and range bounds it overlooks |
| `Recursion.EdgesExactly` | support/kconfig/symbol.c:1184-1216 | the check follows selecting expressions, conditions of all properties but choices and selects, and values of defaults, and nothing else |
| `Recursion.DirectUnreported` | support/kconfig/symbol.c:1184-1216 | symbols that depend on each other by direct dependencies alone are never reported |
| `Recursion.RecursiveIffUnordered` | support/kconfig/symbol.c:1184-1216 | where what it overlooks reads nothing or is followed elsewhere, there is recursion to report if and only if no order of evaluation exists |
| `Recursion.RingIsRecursive` | support/kconfig/symbol.c:1184-1216 | any ring of symbols that are shown, defaulted or selected depending on the next is recursion, such as two prompts that depend on each other |
| `Recursion.CheckConfiguration` | support/kconfig/symbol.c:1255-1287 | the check of a whole configuration reports if and only if values cannot be ordered; silence means exactly one solution |
| `Graphs.AcyclicNumbered` | support/kconfig/symbol.c:1184-1287 | a finite graph without cycle can be numbered so that every edge goes down |
| `RangeLoop.LoopAccepted` | support/kconfig/symbol.c:1196-1210 | two ints that bound each other pass the check, which does not follow range bounds |
| `RangeLoop.LoopCircular` | support/kconfig/symbol.c:155-187 | although what they read is circular |
| `RangeLoop.FirstWins` | support/kconfig/symbol.c:155-187 | of two ints that bound each other the one asked for first keeps its default and the other is moved to it |
| `RangeLoop.TwoOrders` | support/kconfig/symbol.c:293-440 | so asking in the two orders ends in different tables |
| `RangeLoop.SelfDefaultEmpty` | support/kconfig/symbol.c:318-384 | a symbol that defaults to itself is seen as n or as the empty text meanwhile and ends up so |
| `ConfigTheorems.SimplifyComputed` | support/kconfig/menu.c:310-325 | on computed values, the simplified conjunction of the condition of the parent and the transformed condition never exchanges y and n, and without modules changes nothing |
| `ConfigTheorems.AcceptedValueLost` | support/kconfig/symbol.c:506-526 | a tristate symbol that is y with visibility m: setting it to y succeeds and makes it m |
| `ConfigTheorems.RangeRespected` | support/kconfig/symbol.c:155-187 | an int or hex symbol ends up inside its first active range, whatever the user or a default asked for |
| `MenuForest.FinalizeKeepsOrder` | support/kconfig/menu.c:279-422 | finalizing an entry keeps the preorder sequence of it and its following siblings together |
| `MenuForest.FinalizeAllKeepsOrder` | support/kconfig/menu.c:336-337 | so does the loop over sub-entries, which shrinks while it runs |
| `MenuForest.AbsorbKeepsOrder` | support/kconfig/menu.c:338-369 | so does taking over siblings |
| `MenuForest.PromoteKeepsOrder` | support/kconfig/menu.c:372-421 | so does moving up the sub-entries of promptless entries |
| `MenuForest.RootKeepsOrder` | support/kconfig/menu.c:279-422 | for the whole tree |
| `MenuForest.PromotePrompts` | support/kconfig/menu.c:411-420 | where every level below is in order, the last loop leaves no entry of the list with sub-entries but no prompt text |
| `MenuForest.AbsorbPrompts` | support/kconfig/menu.c:338-369 | siblings taken over are in order below |
| `MenuForest.FinalizeAllPrompts` | support/kconfig/menu.c:336-337 | so are finalized sub-entries |
| `MenuForest.FinalizePrompts` | support/kconfig/menu.c:279-422 | after `menu_finalize` no proper descendant has sub-entries but no prompt text, whatever the tree was |
| `MenuShape.RootPlaces` | support/kconfig/menu.c:279-422 | the parent of every entry of the finalized tree, and the order of all entries, as one pass with a stack of open entries gives them: the innermost open entry with a prompt text it belongs to, directly or by way of open entries without |
| `MenuShape.FinalizePlaces` | support/kconfig/menu.c:279-422 | the same for an entry and the siblings after it, whatever entries are open around them |
| `MenuShape.AbsorbPlaces` | support/kconfig/menu.c:338-369 | what an entry takes over ends up below it, or beside it if it has no prompt text; the others find it closed |
| `MenuShape.PromoteLinks` | support/kconfig/menu.c:372-421 | the last loop moves exactly the sub-entries of entries without prompt text |
| `MenuShape.FinalizeTakes` | support/kconfig/menu.c:338-369 | an entry with a symbol and no sub-entries takes over siblings that belong to it or to one taken over before, up to the first that does not belong to it, with or without sub-entries; any other entry takes over none |
| `Submenus.CompareNoRefines` | support/kconfig/expr.c:877-936 | `expr_trans_compare` against n turns y into y and n into n, and m into either, where the text of a symbol tells whether it is n |
| `Submenus.CompareNoExact` | support/kconfig/expr.c:877-936 | without negations it is y if and only if the condition is not n |
| `Submenus.LoneSymbol` | support/kconfig/expr.c:877-936 | for a symbol alone the first holds if and only if its text tells, as for booleans and tristates |
| `Submenus.DependsShown` | support/kconfig/expr.c:797-824 | where a condition that `expr_depends_symbol` accepts is not n, the symbol is not n |
| `Submenus.FollowsShown` | support/kconfig/menu.c:338-364 | an entry that follows a symbol into its submenu and is shown at y, or at all if its condition has no negation: the symbol is not n or its prompt is shown |
| `Submenus.ShownBesideHidden` | support/kconfig/menu.c:338-364 | with negations it can be shown at m where the symbol is n and hidden |
| `MenuFinalize.MenuTable.FinalizeKids` | support/kconfig/menu.c:336-337 | the loop over `list` and `next`, relinked under its feet, yields the finalized forest with the right parents and touches nothing else |
| `MenuFinalize.MenuTable.AbsorbLoop` | support/kconfig/menu.c:343-364 | the loop over the following siblings takes over exactly the longest run that belongs below the entry |
| `MenuFinalize.MenuTable.AbsorbSiblings` | support/kconfig/menu.c:342-369 | the cut: the run becomes the sub-entries, the rest the siblings |
| `MenuFinalize.MenuTable.Reparent` | support/kconfig/menu.c:412-416 | all sub-entries get the new parent and the last is found |
| `MenuFinalize.MenuTable.PromoteOne` | support/kconfig/menu.c:411-420 | one splice: the sub-entries follow their former parent in the list of `p` |
| `MenuFinalize.MenuTable.PromoteKids` | support/kconfig/menu.c:372-421 | the last loop as a whole, including entries that move up while it runs |
| `MenuFinalize.MenuTable.Gather` | support/kconfig/menu.c:285-370 | the first half: sub-entries final, by recursion or by taking over |
| `MenuFinalize.MenuTable.FinalizeEntry` | support/kconfig/menu.c:279-422 | the relinking leaves exactly the tree of `MenuForest.Finalize`, every `parent`, `list` and `next` included, and changes nothing outside the entry and its following siblings |
| `ConfWrite.PrintedOnce` | support/kconfig/confdata.c:786-803 | each symbol is printed at most once, and exactly the flagged symbols that occur are |
| `ConfWrite.Writer.Visit` | support/kconfig/confdata.c:788-803 | one entry: evaluate, print if flagged, clear the flag |
| `ConfWrite.Writer.Climb` | support/kconfig/confdata.c:810-817 | climbing arrives at the next entry in preorder, or ends |
| `ConfWrite.Writer.Write` | support/kconfig/confdata.c:786-819 | the stackless walk visits every entry below the root once, in preorder, and ends; the walk of `conf_write_defconfig` has the same links |
| `ChoiceScan.DetermineActual` | support/scripts/kconfiglib.py:3383-3405 | the stack scan computes `Scan` |
| `ChoiceScan.ScanFinds` | support/scripts/kconfiglib.py:3383-3405 | for every sequence of entries and every dependency predicate, what the scan finds in terms of the nesting: symbols at the top, and nested symbols behind an entry that is no symbol |
| `ChoiceScan.PromotedMembers` | support/kconfig/menu.c:338-421 | what the C tool counts in terms of the same nesting: symbols at the top, and nested symbols all of whose ancestors lack a prompt text |
| `ChoiceScan.ToolsAgree` | support/kconfig/menu.c:338-421 | the two tools see the same members if and only if every symbol has the same standing with both |
| `ChoiceScan.SymbolsAgree` | support/kconfig/menu.c:338-421 | where all entries are symbols, that is if and only if no promptless member takes over another |
| `ChoiceScan.CommentBetween` | support/scripts/kconfiglib.py:3383-3405 | a comment between two symbols with prompts, on which they differ |
| `ChoiceScan.PromptlessMember` | support/kconfig/menu.c:372-421 | two symbols on which they differ |
| `KSolve.ValueLocal` | support/scripts/kconfiglib.py:2287-2445 | the value of a symbol depends on the symbols it names and on whether modules are enabled, and on the latter only where something can be m |
| `KSolve.SelectionExact` | support/scripts/kconfiglib.py:3173-3216 | between two states that a choice sees alike, its selection is the same if and only if its preferred default is as visible |
| `KSolve.SolutionUnique` | support/scripts/kconfiglib.py:2287-2445 | with each choice counted as one and MODULES read where something can be m, an acyclic configuration has at most one solution of the equations of `get_value`; defaults of a choice need not be members |
| `KSolve.SolutionExists` | support/scripts/kconfiglib.py:2287-2445 | and at least one |
| `KMeaning.SolutionMeans` | support/scripts/kconfiglib.py:2287-2445 | values solve the equations if and only if each means what it should, stated over prompts, defaults, user values, choices, reverse dependencies and ranges without following a loop |
| `KMeaning.ResultIs` | support/scripts/kconfiglib.py:2287-2445 | the same for the value and write flag of one symbol: what `get_value` gives is the one result that means what it should |
| `KMeaning.VisIs` | support/scripts/kconfiglib.py:2259-2282 | a symbol is shown at m or y if and only if it and the choice around it have such a prompt; only tristates tell m from y |
| `KMeaning.TruthIs` | support/scripts/kconfiglib.py:2324-2354 | outside choices: selected, or assigned and shown, or else by default; written if selected, shown or defaulted |
| `KMeaning.SelectionIs` | support/scripts/kconfiglib.py:3173-3216 | the selection: the assigned member if shown as y, else the first active default if shown, else the first member shown |
| `KMeaning.MemberIs` | support/scripts/kconfiglib.py:2311-2354 | a member is y if selected in y mode, and m, or y if a bool, if assigned in m mode |
| `KMeaning.NumberIs` | support/scripts/kconfiglib.py:2372-2442 | numbers: the assigned one if shown and within bounds, else the first default that is a number moved into the bounds, else a positive lower bound, else the last active default as it is |
| `KMeaning.SelectedValue` | support/scripts/kconfiglib.py:2345-2354 | a symbol outside choices is at least the value of the expression that selects it, and is written if that is not n |
| `KMeaning.OnlySelected` | support/scripts/kconfiglib.py:2345-2354 | without shown prompt and active default it is exactly that, m raised to y for bools |
| `KExpr.DeMorgan` | support/scripts/kconfiglib.py:1463-1506 | a negated conjunction has the value of the disjunction of the negations, and the other way round |
| `KExpr.Extreme` | support/scripts/kconfiglib.py:1465-1497 | a conjunction is at least t if and only if all operands are, a disjunction if and only if one is |
| `KExpr.Opposites` | support/scripts/kconfiglib.py:1499-1512 | negation turns the order round and undoes itself; `=` is y if and only if the texts are equal, and `!=` is its negation and never m |
| `Engines.TranslateValue` | support/scripts/kconfiglib.py:1449-1512 | an expression of the C engine, with chains of one operator as lists, has the same value in Kconfiglib |
| `KFrame.Unaffected` | support/scripts/kconfiglib.py:2966-2994 | outside a set closed under mentions and choice membership no value changes, as long as modules are as before or are not asked for, and no choice of lower rank sees its preferred default come or go |
| `KFrame.ModulesUnaffected` | support/scripts/kconfiglib.py:1540-1542 | modules stay as they are when MODULES is out of reach |
| `KFrame.ChoiceUnaffected` | support/scripts/kconfiglib.py:3173-3216 | a choice outside the set looks the same; its selection is the same if and only if its preferred default is as visible |
| `KCaches.SetReaches` | support/scripts/kconfiglib.py:2865-2928 | an assignment reaches the user state of the symbol and its choice only, and keeps user values typed |
| `KCaches.UnsetReaches` | support/scripts/kconfiglib.py:2930-2935 | so does an unassignment |
| `KCaches.DroppingRestores` | support/scripts/kconfiglib.py:2849-2863 | when user values change inside a closed set, modules stay as they are and no choice outside sees its preferred default come or go, every cache entry that is left is right for the new values |
| `KCaches.DroppingExact` | support/scripts/kconfiglib.py:2849-2863 | with modules unchanged and all selections cached, the caches are right afterwards if and only if that holds of the defaults and of special symbols |
| `KCaches.InvalidationExact` | support/scripts/kconfiglib.py:2447-2486 | with a visible tristate assigned m cached as well, they are right if and only if, besides, modules are enabled as before |
| `KCaches.DroppingAllExact` | support/scripts/kconfiglib.py:596-598 | after `_invalidate_all` they are right if and only if no special symbol changes its visibility |
| `KCaches.OrdinaryContained` | support/scripts/kconfiglib.py:1218 | where defaults of choices are members and special symbols have no prompt, every change that does not reach MODULES is harmless |
| `KSession.SafeKeepsFresh` | support/scripts/kconfiglib.py:2447-2486 | each command that is safe, which a client can check beforehand, keeps all caches right |
| `KSession.OrdinarySafe` | support/scripts/kconfiglib.py:2447-2486 | in such a configuration every command is safe but those that reach MODULES, and of these assigning it is |
| `KDeps.Graph.AddExprDeps` | support/scripts/kconfiglib.py:1560-1562 | the symbol joins the `dep` set of every symbol of the expression and no other |
| `KDeps.Graph.AddSymbol` | support/scripts/kconfiglib.py:1572-1593 | the same for everything the symbol or its choice mentions: prompts, defaults, selects, ranges and their conditions |
| `KDeps.Graph.BuildDep` | support/scripts/kconfiglib.py:1548-1593 | each `dep` set is exactly the set of symbols that mention its symbol |
| `KDeps.Graph.AddDependent` | support/scripts/kconfiglib.py:2986-2994 | adds a closed set that holds every mentioning symbol and nothing a change cannot reach |
| `KDeps.Graph.AddSiblings` | support/scripts/kconfiglib.py:2977-2981 | does so for each fellow member |
| `KDeps.Graph.CalcDependent` | support/scripts/kconfiglib.py:2974-2984 | the result with the symbol itself is the least closed set that contains it |
| `KDeps.Graph.GetDependent` | support/scripts/kconfiglib.py:2966-2984 | the same through `cached_deps`, which is always right |
| `KCache.Cache.EvalExpr` | support/scripts/kconfiglib.py:1449-1522 | evaluation with early returns through cached operand values equals the plain value |
| `KCache.Cache.EvalPrompts` | support/scripts/kconfiglib.py:2261-2263 | the maximum of the prompt conditions |
| `KCache.Cache.GetChoiceVis` | support/scripts/kconfiglib.py:2259-2273 | the visibility of a choice, the same for all members that ask |
| `KCache.Cache.HasModules` | support/scripts/kconfiglib.py:1540-1542 | whether modules are enabled, through the cached value of MODULES |
| `KCache.Cache.EvalOpt` | support/scripts/kconfiglib.py:1435-1447 | m counts as y without modules; MODULES is asked for only where m comes up |
| `KCache.Cache.GetVis` | support/scripts/kconfiglib.py:2259-2273 | the cached visibility of a symbol, special or not, is the fresh one |
| `KCache.Cache.GetMode` | support/scripts/kconfiglib.py:3292-3303 | the mode of a choice |
| `KCache.Cache.GetDefaultSelection` | support/scripts/kconfiglib.py:3195-3216 | the first active default if visible, member or not, else the first visible member, else none |
| `KCache.Cache.GetSelection` | support/scripts/kconfiglib.py:3173-3193 | the cached selection is the fresh one, also when it is none |
| `KCache.Cache.CalcNumber` | support/scripts/kconfiglib.py:2372-2442 | int and hex: user value if in range, else a clamped default, else the low bound |
| `KCache.Cache.CalcString` | support/scripts/kconfiglib.py:2356-2370 | string: user value or first active default |
| `KCache.Cache.CalcPlain` | support/scripts/kconfiglib.py:2324-2343 | bool and tristate before selects: user value limited by visibility, else first active default |
| `KCache.Cache.CalcTruth` | support/scripts/kconfiglib.py:2324-2350 | selects raise the value and set the write flag |
| `KCache.Cache.CalcMember` | support/scripts/kconfiglib.py:2311-2323 | a member of a choice by mode and selection |
| `KCache.Cache.GetValue` | support/scripts/kconfiglib.py:2287-2444 | what is cached is returned as it is; right caches give the value in the solution, hold it afterwards and stay right |
| `KCache.Cache.Assign` | support/scripts/kconfiglib.py:2865-2928 | special, undefined and ill-typed assignments are ignored; others set the user value and, for members, selection and mode of the choice |
| `KCache.Cache.Unassign` | support/scripts/kconfiglib.py:2930-2935 | clears the user value and the user state of the choice |
| `KCache.Cache.Invalidate` | support/scripts/kconfiglib.py:2849-2859 | drops exactly the caches of the symbol and of its choice; special symbols keep theirs |
| `KCache.Cache.InvalidateAll` | support/scripts/kconfiglib.py:2861-2863 | drops exactly the caches of a set of symbols and of their choices |
| `KSession.Config.constructor` | support/scripts/kconfiglib.py:2826-2833 | a parsed configuration has right caches and right `dep` sets |
| `KSession.Config.GetValue` | support/scripts/kconfiglib.py:2287-2444 | right caches give the value in every solution for the current user values, and value and flag mean what they should; in any case what is cached is the answer |
| `KSession.Config.SetUserValue` | support/scripts/kconfiglib.py:2447-2479 | the user values after the assignment; dropped are exactly the caches of the least closed set, or of all symbols if the symbol is MODULES |
| `KSession.Config.UnsetUserValue` | support/scripts/kconfiglib.py:2481-2486 | the same for an unassignment, without the exception for MODULES |
| `KSession.Config.Run` | support/scripts/kconfiglib.py:2287-2486 | in every run of safe assignments, safe unassignments and reads, each read gives the freshly evaluated value for the user values of that moment |
| `KStale.StaleAfterSet` | support/scripts/kconfiglib.py:2472-2479 | a run in which FOO, on which MODULES depends, goes back to n and a tristate is still read as m |
| `KStale.StaleAfterUnset` | support/scripts/kconfiglib.py:2481-2486 | a run in which MODULES is unset and a tristate is still read as m |
| `KStale.StaleSelection` | support/scripts/kconfiglib.py:1592-1593 | a run in which the default of a choice, which is no member, becomes invisible and the member selected instead is still read as n |
| `KTheorems.MemberByMode` | support/scripts/kconfiglib.py:3150-3168 | when exactly a member of a choice is y, m or n, by the mode of the choice |
| `KTheorems.MembersTogether` | support/scripts/kconfiglib.py:3150-3168 | two members are y together if and only if the choice is in m mode and both are visible, assigned bools; everywhere else the documented exclusion holds |
| `KTheorems.TwoMembersSelected` | support/scripts/kconfiglib.py:3150-3168 | a configuration and two assignments after which two members are y |
| `KTheorems.SelectionVisible` | support/scripts/kconfiglib.py:3195-3216 | a default selection is found if and only if the preferred default or a member is visible; it is visible, and a member unless the preferred default is none and is visible |
| `KTheorems.SomeMemberSelected` | support/scripts/kconfiglib.py:3150-3168 | in y mode a member is y if and only if the user selection is visible as y, or the choice is not optional and defaults to a member |
| `KTheorems.SetSees` | support/scripts/kconfiglib.py:2447-2479 | the new value of an assigned symbol is what the old values of all others make of the new user value |
| `KTheorems.AssignableSticks` | support/scripts/kconfiglib.py:2542-2562 | a value that `get_assignable_values` lists is the symbol's value once assigned if and only if: m is assigned to a tristate with modules on and not in a bool choice, n is not assigned to the selected member of a choice in y mode |
| `KTheorems.AssignableWhen` | support/scripts/kconfiglib.py:2542-2562 | some value is listed if and only if the symbol is shown above what selects it |
| `KTheorems.AssignableComplete` | support/scripts/kconfiglib.py:2542-2562 | outside choices, where anything is listed, a value assigned is accepted and kept if and only if it is listed, and m only for tristates with modules on |
| `KTheorems.StringSticks` | support/scripts/kconfiglib.py:2356-2370 | an assigned string is the value from then on if and only if the symbol is shown or had that value before |
| `KTheorems.NumberSticks` | support/scripts/kconfiglib.py:2372-2442 | an assigned number is, if and only if the symbol is shown and the number within the first active range, or it would be the value anyway |
| `KTheorems.SetThenUnset` | support/scripts/kconfiglib.py:2930-2935 | unassigning forgets whatever was assigned before, the selection and mode of the choice included |
| `KTheorems.UnsetRestoresValues` | support/scripts/kconfiglib.py:2481-2486 | where neither the symbol nor its choice was assigned before, assigning and unassigning restores every value |
| `KTheorems.MForgetsSelection` | support/scripts/kconfiglib.py:2911-2928 | assigning m to a member forgets the selection of the choice, so that only a default can be selected |
| `KTheorems.BoolListsM` | support/scripts/kconfiglib.py:2542-2562 | m is listed for every bool that lists anything, and refused |
| `KTheorems.NumberInRange` | support/scripts/kconfiglib.py:2372-2442 | an int or hex value that is a number lies within the first active range |
| `ExprText.ParsePrinted` | support/scripts/kconfiglib.py:846-912 | every expression without empty lists, printed and parsed, comes back as `Reread`, and exactly its own tokens are consumed, for every continuation that is no operator or relation; m rewritten or not |
| `ExprText.ParsePrintedSame` | support/scripts/kconfiglib.py:2128-2190 | it comes back unchanged if and only if lists have two terms or more, no operator is directly inside itself, and no relation mentions the symbol m |
| `ExprText.RereadValue` | support/scripts/kconfiglib.py:2128-2190 | in every case it comes back with the same value, where conditions are read with each lone m as m and MODULES |
| `ExprText.RewrittenOff` | support/scripts/kconfiglib.py:893-897 | elsewhere nothing is rewritten |
| `ExprText.RereadSize` | support/scripts/kconfiglib.py:2128-2190 | and not larger |
| `ExprTokens.PrintedJoints` | support/scripts/kconfiglib.py:2128-2190 | an operator is printed once for any two neighbours it joins and nowhere else |
| `ExprTokens.ParsedFaithfully` | support/scripts/kconfiglib.py:846-912 | whatever tokens are read outside conditions, the expression has exactly the operators, negations and relations consumed, and parentheses match |
| `ExprText.Feed.Check` | support/scripts/kconfiglib.py:3550-3561 | a token is consumed exactly if it is the next |
| `ExprText.Feed.GetNext` | support/scripts/kconfiglib.py:3527-3533 | the next token, none at the end |
| `ExprText.Feed.ReadChain` | support/scripts/kconfiglib.py:846-860 | the loops over the index of the feed compute `ParseChain` on the tokens left, error cases included |
| `ExprText.Feed.ReadFactor` | support/scripts/kconfiglib.py:862-912 | the same for a factor: missing parenthesis, malformed expression, relation, negation, rewriting of m |
| `Escape.UnquotedEscaped` | support/kconfig/confdata.c:154-168 | reading an escaped string up to the closing quote gives the string back, whatever follows |
| `Escape.EscapedLength` | support/kconfig/symbol.c:924-936 | the escaped text is longer by the number of quotes and backslashes |
| `Escape.CountEscaped` | support/kconfig/symbol.c:922-936 | the first pass counts the buffer |
| `Escape.WriteEscaped` | support/kconfig/symbol.c:941-955 | the second pass writes the quoted, escaped string |
| `Escape.EscapeString` | support/kconfig/symbol.c:915-956 | the buffer exactly holds the result and its terminator |
| `Escape.DropChar` | support/kconfig/confdata.c:162 | the `memmove`: everything behind the backslash, terminator included, one place down |
| `Escape.ReadQuoted` | support/kconfig/confdata.c:154-168 | the in-place loop leaves the unescaped string with a terminator, and fails exactly when no closing quote is found, also after a backslash at the very end |
| `Escape.WriteAndRead` | support/kconfig/symbol.c:915-956 | a string that is written by the one and read by the other, whatever follows on the line, is what it was |
| `Escape.WritersAgree` | support/scripts/kconfiglib.py:2952-2957 | the two replacements of Kconfiglib write what the C code writes |
| `Escape.ReadBack` | support/scripts/kconfiglib.py:306-309 | its two replacements, in the other order, give every string back |
| `OffscreenPool.BlocksDisjoint` | package/qt/qscreenlinuxfb_qws_wz.cpp:826-839 | any two blocks of an ordered table are disjoint and below the top |
| `OffscreenPool.Aligned` | package/qt/qscreenlinuxfb_qws_wz.cpp:948-950 | rounding gives multiples of the alignment less than one step away |
| `OffscreenPool.FirstFitFree` | package/qt/qscreenlinuxfb_qws_wz.cpp:939-976 | a chosen block that is not empty is aligned, large enough, free and below the ceiling, and the table with it is in order, the empty table included |
| `OffscreenPool.BlockNotEmpty` | package/qt/qscreenlinuxfb_qws_wz.cpp:939-976 | a request for at least one byte never gets an empty block; any other gets one unless alignment leaves a rest at the bottom |
| `OffscreenPool.EmptyBlockBreaks` | package/qt/qscreenlinuxfb_qws_wz.cpp:939-976 | a table with an empty block behind the first entry is not in order |
| `OffscreenPool.UncacheRestores` | package/qt/qscreenlinuxfb_qws_wz.cpp:1015-1035 | giving back a block just handed out restores the table if and only if it is not the first entry; a block handed out from an empty table cannot be given back |
| `OffscreenPool.FreedExactly` | package/qt/qscreenlinuxfb_qws_wz.cpp:1015-1035 | a block goes if and only if the client who holds it gives it back and it is not the first entry |
| `OffscreenPool.KeptExactly` | package/qt/qscreenlinuxfb_qws_wz.cpp:1045-1058 | clearing a client keeps every entry of the others as often as it occurs, and no other |
| `OffscreenPool.GapFitsIff` | package/qt/qscreenlinuxfb_qws_wz.cpp:939-959 | a gap fits if and only if it holds an aligned block of that size, and the one taken is the lowest |
| `OffscreenPool.BottomFitsIff` | package/qt/qscreenlinuxfb_qws_wz.cpp:963-972 | the memory below all blocks and above the table holds an aligned block of that size if and only if the one chosen there fits |
| `OffscreenPool.KeptDescending` | package/qt/qscreenlinuxfb_qws_wz.cpp:1045-1058 | whichever client is cleared, the entries that are left are in order |
| `OffscreenPool.ClearKeepsDummy` | package/qt/qscreenlinuxfb_qws_wz.cpp:1045-1058 | the mark at the top of memory survives if and only if another client holds it |
| `OffscreenPool.ClearLoses` | package/qt/qscreenlinuxfb_qws_wz.cpp:1045-1058 | if the cleared client holds it, the memory above the first block left is lost, unless there was no block or that block ends at the top |
| `OffscreenPool.Pool.constructor` | package/qt/qscreenlinuxfb_qws_wz.cpp:1061-1082 | with 16 KiB of spare memory the table with its dummy entry fits below the top; otherwise there is no pool |
| `OffscreenPool.Pool.InsertEntry` | package/qt/qscreenlinuxfb_qws_wz.cpp:869-901 | the table gets the entry at its position, `lowest` becomes the smaller of itself and the start; positions beyond the end are ignored |
| `OffscreenPool.Pool.RemoveEntry` | package/qt/qscreenlinuxfb_qws_wz.cpp:841-867 | the table loses the entry; `lowest` goes up to the entry before if it was the lowest, and stays for entry 0, where the word read is `lowest` itself; positions outside are ignored |
| `OffscreenPool.Pool.AlignUp` | package/qt/qscreenlinuxfb_qws_wz.cpp:948-950 | the counting loop ends at the next multiple |
| `OffscreenPool.Pool.FindGap` | package/qt/qscreenlinuxfb_qws_wz.cpp:939-959 | the first gap that fits, or none does |
| `OffscreenPool.Pool.BottomStart` | package/qt/qscreenlinuxfb_qws_wz.cpp:963-969 | the highest aligned address that leaves the amount below the lowest block |
| `OffscreenPool.Pool.Cache` | package/qt/qscreenlinuxfb_qws_wz.cpp:920-978 | nothing if and only if table or memory is full; else the first fit; unless the block is empty the blocks stay in order, `lowest` is the last start and the table ends below it |
| `OffscreenPool.Pool.DeleteEntry` | package/qt/qscreenlinuxfb_qws_wz.cpp:1015-1035 | removes the block at that address if the client holds it, else changes nothing |
| `OffscreenPool.Pool.ClearCache` | package/qt/qscreenlinuxfb_qws_wz.cpp:1045-1058 | for every client exactly the entries of the others are left, in order; without any `lowest` stays; the loop ends although it steps back |
| `OffscreenPool.Pool.Serve` | package/qt/qscreenlinuxfb_qws_wz.cpp:920-1058 | each request keeps the pool valid and the blocks of all other clients; a block handed out is entered for its client, shares no memory with any other and lies below the ceiling, which never rises |
| `OffscreenPool.Pool.ServeAll` | package/qt/qscreenlinuxfb_qws_wz.cpp:920-1058 | in every run of requests memory above the ceiling is never handed out again, and clients who ask for nothing keep their blocks |
| `BootStage.WordReadBack` | sunmi/x2600/u-boot/common/bootstage.c:56-61 | a stored word is read back |
| `BootStage.DecimalIs` | sunmi/x2600/u-boot/common/bootstage.c:182-185 | decimal digits without leading zeros that stand for a number are unique, and are what is printed |
| `BootStage.NameIs` | sunmi/x2600/u-boot/common/bootstage.c:176-188 | a record keeps its name; one without is named `user_` and its number from the first for users, or `id=` and its number, readable as the int it is, in less than 20 bytes |
| `BootStage.LiveExactly` | sunmi/x2600/u-boot/common/bootstage.c:380-384 | exactly the records with a time are stashed, each as often as it occurs |
| `BootStage.LiveInOrder` | sunmi/x2600/u-boot/common/bootstage.c:380-384 | in the order of the table |
| `BootStage.Stage.AppendData` | sunmi/x2600/u-boot/common/bootstage.c:339-348 | the cursor always advances by the size; the data is written exactly if it ends inside the buffer, and nothing else changes |
| `BootStage.Stage.CountLive` | sunmi/x2600/u-boot/common/bootstage.c:368-372 | the number of records with a time |
| `BootStage.Stage.WriteAll` | sunmi/x2600/u-boot/common/bootstage.c:364-392 | header without size, records and names in order as far as they fit, the cursor behind them in any case |
| `BootStage.Stage.Stash` | sunmi/x2600/u-boot/common/bootstage.c:350-405 | once the header fits, it fails exactly when the whole does not fit; success leaves a stash, failure a header with size zero and records announced |
| `BootStage.Stage.SetNames` | sunmi/x2600/u-boot/common/bootstage.c:459-466 | each record's name is the next terminated string |
| `BootStage.Stage.Unstash` | sunmi/x2600/u-boot/common/bootstage.c:407-473 | succeeds exactly on headers that pass the checks and fit; then the records are appended at `next_id`; otherwise nothing changes |
| `BootStage.StashAccepted` | sunmi/x2600/u-boot/common/bootstage.c:418-451 | a stash is accepted if and only if its records fit |
| `BootStage.AcceptedHeader` | sunmi/x2600/u-boot/common/bootstage.c:418-451 | a header is accepted if and only if its bytes are the magic number and the version and its counts fit, byte for byte |
| `BootStage.FailedStashRejected` | sunmi/x2600/u-boot/common/bootstage.c:433-438 | what a failed stash leaves is never accepted |
| `BootStage.StashIntact` | sunmi/x2600/u-boot/common/bootstage.c:459-466 | the names of a stash are where the reader looks for them |
| `BootStage.StashRestores` | sunmi/x2600/u-boot/common/bootstage.c:455-466 | each record of a stash is read back with its fields and its printable name |
| `BootStage.RoundTrip` | sunmi/x2600/u-boot/common/bootstage.c:350-473 | unstash after stash appends exactly the records with a time, in order, and leaves all others alone |
| `BootStage.StashAndUnstash` | sunmi/x2600/u-boot/common/bootstage.c:350-473 | the two methods one after the other: they succeed if and only if there is room in the buffer and among the records, and then do that; the names that come back are the given ones or tell the number of the record |
| `BootStage.NamesPresentIff` | sunmi/x2600/u-boot/common/bootstage.c:453-466 | the reader stays inside the buffer if and only if the records do and as many zero bytes follow them |
| `BootStage.ShortStashAccepted` | sunmi/x2600/u-boot/common/bootstage.c:433-438 | the check of the size forgets the header: 20 bytes that announce one record are accepted, though the record ends at 36 |

## Left out

- Config.AcceptedValueSticks: speaks of configurations without choices, because the C evaluation of choices depends on the order in which members were set.
- SymbolTable.Table.CalcValue: choices, `modules_val` changing during a run, SYMBOL_AUTO, change flags and the warning about unmet dependencies are not modelled; `modules_val` is a constant.
- ConfigTheorems.CheckedHasOneSolution: asks that range bounds and direct dependencies mention only what the check follows, because the code does not follow them; `ConfigTheorems.AcyclicHasOneSolution` does not ask this.
- DepCheck.Checker.CheckAll: choice groups, which start from the choice symbol, and the printed text are not modelled; a report is a count.
- ExprDups.SimplifiedRefines: equality is shown where no cancellation happens and where no m occurs, because an m may or may not be decided by a later round.
- MenuFinalize.MenuTable.FinalizeEntry: whether an entry belongs below another is a given predicate of the two (`Submenus.Follows` is the one of the source); the propagation of dependencies into `dep` and `visible.expr` and the marking of choice values are not modelled.
- ConfWrite.Writer.Write: output text is the sequence of symbols printed; menu headings are not modelled.
- ChoiceScan.ToolsAgree: whether an entry belongs below another is one given predicate for both tools; entries are distinct.
- KSession.Config.Run: defaults of string, int and hex symbols are single operands; `load_config`, which assigns many symbols and then drops all caches, is not modelled.
- KDeps.Graph.GetDependent: only acyclic configurations, because on others the recursion of the source does not end.
- ExprText.Feed.ReadFactor: a relation whose right operand is missing is the error NoOperand here; the source goes on with a tree that has no operand there.
- OffscreenPool.Pool.Cache: integers do not wrap; a pool entry is taken as 12 bytes, three 32-bit words, so that the slot before entry 0 begins at the word `lowest`.
- OffscreenPool.Pool.RemoveEntry: position `*entryp` is ruled out, because the source would then move a negative number of bytes; no caller passes it.
- OffscreenPool.Pool.Serve: for requests of at least one byte; `OffscreenPool.BlockNotEmpty` says what others get.
- BootStage.Stage.Unstash: relies, like the source, on records and names that end inside the buffer (`BootStage.NamesPresentIff`); products and sums of header fields do not wrap, and size -1 for an unbounded buffer is not modelled.
- BootStage.Stage.Stash: the name address inside a record image, which no reader uses, is one fixed word.
- Escape.ReadQuoted: the cases for other symbol types in `conf_set_sym_val` are left out, being single comparisons.
- Submenus.CompareNoRefines: only the comparison with n, the one the source asks for, is modelled.
- Submenus.FollowsShown: operands of the two conditions are booleans, tristates or y, m and n; `Submenus.LoneSymbol` says why.
- Recursion.RecursiveIffUnordered: range bounds and direct dependencies that the check overlooks read nothing or are followed elsewhere; `RangeLoop.TwoOrders` shows what happens otherwise.
- SymbolTable.Table.SetString: a text kept for a symbol whose SYMBOL_DEF_USER flag has been cleared is not modelled; strings hold no zero character.
- `expr_trans_bool`, which keeps less than the value, is left out.
- The Kconfig grammar and scanner of the C engine, all user interfaces, file handling, search and random configurations are left out.
- Parsing of Kconfig files in Kconfiglib beyond expressions, and its reading of whole `.config` files, are left out.
- Frame buffer mapping, locking and the refresh thread of the Qt driver are left out.
- Printing, sorting and device tree export of boot timings are left out as easy members.
