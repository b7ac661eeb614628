# Verified cores of the backports tree

The backports tree carries the Kconfig engine (`kconf/`) and copies of kernel
routines for older kernels (`compat/`, `backport-include/`, `include/`). This
project models the parts of it that carry most of the logic and proves what they
promise.

- **Kconfig expressions** (`Symbols`, `Expr`, `ExprEquality`, `ExprForms`, `ExprDups`,
  `ExprReduced`, `ExprTransform`, `ExprRewriter`): three-valued expressions, their value, and
  the rewriting passes. Every pass keeps the value in every environment, and
  every loop ends. `ExprRewriter` holds the passes that write through pointers
  and count their changes in a global.
- **The menu tree** (`MenuShape`, `MenuTree`, `MenuDeps`, `MenuProgress`,
  `MenuExtent`, `MenuFinalize`): `menu_next` and `_menu_finalize` on linked nodes.
  A tree is described by the depth of each node in preorder; the `next`, `list`
  and `parent` pointers are functions of the depths. The final tree is given by
  where each submenu ends (`MenuExtent.FinalExtent`), a function of the parsed menu.
- **Recursive dependencies** (`DepCheck`): the depth-first search over symbols and
  choices with its CHECK and CHECKED flags.
- **Choices** (`Choice`): which member of a choice is yes, and the priority list.
- **The .config format** (`ConfData`, `ConfFile`): escaping, in-place unescaping,
  lines and whole files.
- **Macro expansion** (`Preprocess`, `Macros`, `Expander`, `Numerals`): expansion as a
  function, what references mean, and the code with its cursors and per-variable
  counters.
- **AES-CMAC** (`Cmac`), **ARC4** (`Arc4`), **64-bit multiply-divide** (`MulDiv`).
- **Netlink attributes** (`Netlink`, `NetlinkConforms`, `NetlinkParse`): acceptance of a
  stream under a policy, what it says about the stream, and the parser.
- **PKCS#7** (`Pkcs7`, `Pkcs7Trust`, `Pkcs7Verify`, `Pkcs7Loops`): signer links and trust.
- **S1G traffic maps** (`S1gTim`, `S1gEncode`): the reader, and maps written for it.

`Wrappers` holds the option type they share.

Where the code works in place, the model does too: classes with the fields the
code updates, arrays for fixed buffers, loops with invariants. Each such method is
proved equal to a function, or against a property, and the lemmas are about that
function.

## Hypotheses

- Bool symbols hold only n or y, as `sym_calc_value` ensures
  (kconf/symbol.c:499-500). This is part of `Symbols.TriOf`.
- No tristate symbol equals two different constants that the expression at hand
  tests it against by `=` or `!=` (`Symbols.NoClash` over `Expr.Compared`). Once it is
  tested against one of y, m and n, all three count, since the join rules turn such
  tests into one another. The condition can fail only for spellings read as numbers,
  such as "1" and "0x1"; `ExprDups.JoinAndExact` and `ExprDups.EliminateDupsEqualUnequal`
  give the exact condition of the rule that needs it. Constants compared with other
  symbols do not matter.
- Choices have no name and are not referenced by expressions (`DepCheck.WellFormed`).
- Certificates that carry `verified` before `pkcs7_validate_trust` are already
  backed (`Pkcs7Trust.Sound`). The code never clears that flag, so a second call
  with other trusted keys would start from stale flags.
- A nested netlink policy names an array that covers its types, and an integer
  policy with limits has no explicit length below the size of its integer
  (`Netlink.WellFormed`). The C code would read behind the attribute there.

## Where the code differs from what it says

- kconf/expr.c:649 passes the symbol half of a union where an expression is meant.
  The model follows the documented rule `A != y` becomes `!A` (kconf/expr.c:573).
- `expr_eq` is described as comparing each operand with some operand of the other
  side (kconf/expr.c:201-206). It also counts them: `A && (A && B)` and
  `A && (B && B)` differ (`ExprForms.RepeatedOperandExample`). `ExprForms.EquivalentExact`
  says exactly what it decides.
- `expr_trans_compare` distributes over NOT only for arguments that are not m
  (`ExprTransform.TransCompareNotExact`, `ExprTransform.NotOfModExample`).
- Symbols without a menu entry that an entry selects under each other's condition depend
  on each other unnoticed (`DepCheck.HiddenCycleExample`). The check finds exactly the
  cycles that menu entries reach.
- The test that takes items into a submenu misreads a negation of m: `!B && A!=y` is
  taken in below A under the prompt condition `B=n` and is visible with B at m, when the
  prompt is hidden (`MenuDeps.AdoptionMisreadExample`).
- A default of a choice may name a symbol outside of it. `sym_calc_choice` then
  returns that symbol and no member is yes (`Choice.ChosenIsTheYes`,
  `Choice.OutsideDefaultExample`).
- include/config/auto.conf holds strings unescaped, so the reader strips a final
  carriage return of a value (`ConfFile.LineRestoresIff`, `ConfFile.LostReturnExample`).
- A menu titled like the line of an unset symbol is read as such a line
  and sets it to n (`ConfFile.CommentParsed`, `ConfFile.MisleadingExample`).
- A negative limit of an unsigned 64-bit netlink attribute is converted to a huge
  number (`Netlink.RangeExact`).
- `mul_u64_u64_div_u64` can lose its whole result when it drops precision
  (`MulDiv.TruncatedExample`).
- Each certificate climb refuses to close a loop, yet two climbs together can leave
  one (`Pkcs7Verify.TwoClimbsMakeALoop`). `Pkcs7Loops.ClimbLoopFree` says exactly when
  a climb does. The walk over trust ends all the same.
- In `pkcs7_verify_sig_chain` the test at line 313 never succeeds, because the
  certificate itself is already marked as seen at line 304.
- The last resort of a block, a trusted key of its own, is not always tried. Two
  inputs show it (`Pkcs7Trust.SelfSignedExample`, `Pkcs7Trust.CachedFailureExample`), and
  `Pkcs7Trust.LastResort` gives the exact condition.

## Model

| member | source | states |
|---|---|---|
| Symbols.CompareWithBuiltin | kconf/expr.c:924-960 | comparing a bool or tristate symbol with y, m or n compares their tristate values |
| Symbols.StrCmpOrder | kconf/expr.c:936-937 | the text comparison is negative, zero or positive exactly for dictionary order |
| Expr.ComparisonMeaning | kconf/expr.c:891-960 | a comparison is y exactly when its relation holds of the numbers its sides read as, of their unsigned readings beside a hexadecimal symbol, or of the texts |
| Expr.BuiltinComparisonMeaning | kconf/expr.c:891-960 | a relation between a bool or tristate symbol and y, m or n holds exactly when it holds of their values |
| Expr.EliminateYn | kconf/expr.c:267-308 | removing y and n operands keeps the value in every environment, does not grow the expression, and leaves a settled expression alone |
| Expr.WithinCompared | kconf/expr.c:422-436 | the comparisons that the soundness results range over are exactly the equality tests of tristate symbols in the expression |
| ExprEquality.CancelCommon | kconf/expr.c:101-148 | cancelling common operands never grows either side |
| ExprEquality.CancelCommonSplits | kconf/expr.c:101-148 | one factor is split off both sides: each old value is that factor joined with the new value |
| ExprEquality.EquivalentSound | kconf/expr.c:207-254 | expressions reported equal have the same value in every environment |
| ExprEquality.EquivalentOptSound | kconf/expr.c:207-254 | the same with NULL read as yes |
| ExprEquality.PassesReflectOrder | kconf/expr.c:179-199 | if what is left of the first expression is below what is left of the second, the first was below the second |
| ExprEquality.SupersetTest | kconf/expr.c:179-199 | if the second expression reduces to y, the first is at most the second in every environment |
| ExprForms.EquivalentExact | kconf/expr.c:207-254 | expressions without y and n operands compare equal if and only if they have the same operands equally often on every level, up to grouping and order |
| ExprForms.SameLevelExact | kconf/expr.c:233-240 | two and/or expressions of one kind compare equal if and only if their operands match as multisets |
| ExprForms.CancelledOperands | kconf/expr.c:101-148 | a pass leaves on each side exactly the operands that the other side does not have as often |
| ExprForms.EquivalentIsEquivalence | kconf/expr.c:207-254 | on such expressions the comparison is reflexive, symmetric and transitive |
| ExprForms.EliminateEqSameLevel | kconf/expr.c:179-199 | two expressions of one level keep exactly the operands that the other does not have as often |
| ExprForms.EliminateEqOperandRight | kconf/expr.c:179-199 | an expression that is one operand of the first is taken off it and vanishes |
| ExprForms.EliminateEqOperandLeft | kconf/expr.c:179-199 | the same with the sides exchanged |
| ExprForms.EliminateEqNothing | kconf/expr.c:179-199 | in all other cases both expressions stay as they are |
| ExprForms.SecondVanishes | kconf/expr.c:179-199 | the second expression is reduced to y if and only if the first is a conjunction with all its conjuncts, as often as they occur |
| ExprForms.RepeatedOperandExample | kconf/expr.c:201-206 | two expressions with the same operands, but not equally often, that compare unequal |
| ExprDups.JoinOrSound | kconf/expr.c:313-376 | whenever two operands are joined under OR, the result has the maximum of their values |
| ExprDups.JoinAndExact | kconf/expr.c:378-469 | whenever two operands are joined under AND, the result has the minimum of their values if and only if they are not an equal/unequal pair whose constants both denote the symbol's value |
| ExprDups.JoinEqualUnequalExact | kconf/expr.c:422-436 | the exact condition for the rule that drops `A != c` beside `A = b` |
| ExprDups.JoinOperandsSound | kconf/expr.c:479-524 | joining across two operand trees keeps the value of the whole, under the same condition |
| ExprDups.JoinOperandsLowers | kconf/expr.c:479-524 | a join among operands without y and n leaves strictly lowers the total weight |
| ExprDups.RoundProgress | kconf/expr.c:537-561 | a round that changed something makes the expression strictly smaller, so the loop ends |
| ExprDups.EliminateDups | kconf/expr.c:537-561 | the result is settled, not larger than the argument, and nothing but AND and OR is touched |
| ExprDups.EliminateDupsSound | kconf/expr.c:537-561 | the result has the same value in every environment in which no tristate symbol equals two constants it is tested against |
| ExprDups.EliminateDupsIdempotent | kconf/expr.c:537-561 | a second pass changes nothing |
| ExprDups.EliminateDupsEqualUnequal | kconf/expr.c:422-436 | for `A = b && A != c` the value is kept if and only if b and c do not both denote A's value |
| ExprDups.EliminateDupsClashExample | kconf/expr.c:422-436 | an expression with "1" and "0x1" whose value changes |
| ExprReduced.JoinedExactly | kconf/expr.c:313-469 | two operands are merged if and only if they are the same, or a pair of tests of one symbol that has a common form under the operator |
| ExprReduced.EliminateDupsReduced | kconf/expr.c:537-561 | in the result no two operands of any level can be merged by any rule |
| ExprReduced.EliminateDupsOnce | kconf/expr.c:537-561 | in the result every operand of a level occurs once, up to grouping and order |
| ExprTransform.TransformSound | kconf/expr.c:593-711 | the normalised expression has the same value in every environment |
| ExprTransform.TransformNormal | kconf/expr.c:593-711 | the result is in negation normal form, with NOT only over a symbol other than y, m and n, and without a test of a bool symbol against y, m or n |
| ExprTransform.TransformIdempotent | kconf/expr.c:593-711 | normalising twice is normalising once, and exactly the normal expressions stay as they are |
| ExprTransform.PushNegation | kconf/expr.c:678-691 | moving a NOT inwards negates the value and strictly lowers the weight by which the recursion ends |
| ExprTransform.RewriteMMeaning | kconf/menu.c:104-128 | the rewritten expression is the old one with m read as m && MODULES |
| ExprTransform.TransCompareExact | kconf/expr.c:784-846 | comparing an expression with y or n yields that comparison, when NOT arguments are not m and symbol leaves are bool or tristate |
| ExprTransform.TransCompareNotExact | kconf/expr.c:784-846 | under a NOT this holds if and only if its argument is not m |
| ExprTransform.NotOfModExample | kconf/expr.c:784-846 | `!A = y` with A at m is rewritten to an expression with the value y, while the comparison is n |
| ExprTransform.ConditionalDependency | kconf/menu.c:130-143 | `depends on X if Y` means yes when Y is n and X otherwise |
| ExprTransform.DependsOnSound | kconf/expr.c:741-768 | an expression that depends on a symbol is n whenever the symbol is n |
| ExprTransform.DependsOnExact | kconf/expr.c:741-768 | an expression depends on a symbol if and only if one of its conjuncts is the symbol or a test of it that excludes n |
| ExprTransform.ContainsExact | kconf/expr.c:713-739 | an expression contains a symbol if and only if it is a leaf of it, bare or in a comparison |
| ExprRewriter.Rewriter.CancelCommonInPlace | kconf/expr.c:101-148 | both operands and the change counter are those of the specified cancellation |
| ExprRewriter.Rewriter.EliminateEqInPlace | kconf/expr.c:179-199 | the same for all levels |
| ExprRewriter.Rewriter.IsEquivalent | kconf/expr.c:207-254 | the answer is the specified one, and the change counter is put back |
| ExprRewriter.Rewriter.JoinInPlace | kconf/expr.c:313-469 | the joined operand is the specified one, and comparing the operands leaves the counter alone |
| ExprRewriter.Rewriter.JoinOperandsInPlace | kconf/expr.c:479-524 | both operands and the change counter are those of the specified joining |
| ExprRewriter.Rewriter.EliminateDupsInPlace | kconf/expr.c:537-561 | the loop until nothing changes computes the specified result, in which nothing can be merged any more, and puts the counter back |
| MenuShape.EndOfLastChild | kconf/menu.c:28-40 | a node without a next sibling ends where its parent ends |
| MenuTree.FlattenLinked | kconf/menu.c:495-504 | the pointer changes of flattening give the pointers of the tree in which the children follow their old parent |
| MenuTree.AdoptLinked | kconf/menu.c:454-462 | the pointer changes of an automatic submenu give the pointers of the tree in which the siblings lie below the symbol |
| MenuDeps.FinalDepMeaning | kconf/menu.c:320-329 | a final dependency has the minimum of the node's own dependency, with m rewritten, and those of all nodes around it |
| MenuDeps.FinalPropMeaning | kconf/menu.c:345-373 | a final property condition has the minimum of that and of its own condition |
| MenuDeps.FinalReduced | kconf/menu.c:325-373 | final dependencies and conditions are simplified: no constant operand and no two operands that can be merged |
| MenuDeps.CollectedMaximum | kconf/menu.c:379-387 | a reverse dependency has the maximum of the terms applied to it, and n without any |
| MenuDeps.ReverseDependency | kconf/menu.c:379-387 | it is the maximum, over all selects of the symbol, of the minimum of the selecting symbol and the full condition |
| MenuDeps.AdoptionMeaning | kconf/menu.c:420-452 | an item taken in because it depends on the symbol is hidden whenever the symbol is n; one taken in by the superset test is hidden whenever the prompt is, where no negated operand of either condition is m, bare symbols are bool or tristate, and constants do not clash |
| MenuDeps.AdoptionMisreadExample | kconf/menu.c:444-451 | an item that the superset test takes in and that is visible while the prompt is hidden, because a negated symbol is m |
| MenuDeps.CoversPromptExact | kconf/menu.c:444-451 | the superset test holds if and only if the prompt has no condition or the item's condition is a conjunction with all conjuncts of the prompt's |
| MenuExtent.Extent | kconf/menu.c:397-462 | where the submenu of a node reaches stays within its run of siblings and ends at a sibling |
| MenuExtent.SameExtentsSameTree | kconf/menu.c:28-40 | where every submenu ends determines depths and parents, so FinalizeAll fixes the tree |
| MenuExtent.SubmenuExplained | kconf/menu.c:420-462 | in the finished tree, a node below another one that was not parsed below it is, or was parsed below, an item that passed the adoption test of a node in between |
| MenuExtent.AdoptedHidden | kconf/menu.c:420-452 | the visibility that such an adoption gives, in terms of the final dependencies |
| MenuExtent.SubmenuEnds | kconf/menu.c:426-462 | in the finished tree a submenu ends only where its run of siblings ends or before a sibling that does not require the symbol and does not cover its prompt |
| MenuExtent.DependentsTaken | kconf/menu.c:426-462 | consecutive siblings that all require the symbol lie below it in the finished tree |
| MenuExtent.ParsedBelowStays | kconf/menu.c:397-505 | what was parsed below a node with a prompt stays below it, and members of a choice take nothing in |
| MenuFinalize.Menu.MenuNext | kconf/menu.c:28-40 | the preorder successor inside the subtree of the root, or NULL behind its last node |
| MenuFinalize.Menu.SubEntries | kconf/lkc.h:77-78 | the iteration visits every node below the root once, in preorder, and stops |
| MenuFinalize.Menu.ApplyProp | kconf/menu.c:379-387 | a select or imply is added to the reverse dependency of its target and to the record of applied ones |
| MenuFinalize.Menu.FinishProps | kconf/menu.c:345-388 | all properties of a node get their final conditions, and its selects and implies are applied |
| MenuFinalize.Menu.FinishNode | kconf/menu.c:325-388 | a child gets its final dependency and properties, nothing else changes |
| MenuFinalize.Menu.PropagateDeps | kconf/menu.c:320-389 | exactly the children get their final dependencies and properties, and their selects are applied |
| MenuFinalize.Menu.FinalizeChildren | kconf/menu.c:320-396 | all children are finalized in place, and only they may still have a submenu without a prompt |
| MenuFinalize.Menu.FlattenNode | kconf/menu.c:495-504 | the links become those of the tree with the children one level up |
| MenuFinalize.Menu.Reparent | kconf/menu.c:496-500 | exactly the children of the node get the new parent, and the last of them is found |
| MenuFinalize.Menu.FlattenChildren | kconf/menu.c:466-505 | every child without a prompt loses its submenu, every other submenu keeps its extent, and the links stay consistent |
| MenuFinalize.Menu.TakeSibling | kconf/menu.c:454-456 | a dependent sibling is finalized up to its own extent and gets the new parent |
| MenuFinalize.Menu.LinkAdopted | kconf/menu.c:458-462 | the taken siblings are linked below the symbol |
| MenuFinalize.Menu.AdoptSiblings | kconf/menu.c:420-462 | exactly the chain of dependent siblings, each with its own submenu, is taken in |
| MenuFinalize.Menu.Finalize | kconf/menu.c:305-505 | what one call leaves: dependencies below the node are final, submenus end where MenuExtent says, links are those of that tree, the rest is unchanged |
| MenuFinalize.Menu.FinalizeAll | kconf/menu.c:517-520 | one tree over the same nodes in the same preorder, with every submenu ending where MenuExtent says and none leaving out a sibling that requires its symbol, all dependencies final, all selects and implies collected |
| DepCheck.SortedNoCycle | kconf/symbol.c:1307-1336 | no cycle starts in a list of groups each of which has edges to earlier ones only |
| DepCheck.EdgeExact | kconf/symbol.c:1214-1259 | the edges of the graph are the occurrences in direct, reverse and implied dependencies, in conditions of properties other than select and imply, and in default values outside choices |
| DepCheck.StackCycle | kconf/symbol.c:1307-1320 | an edge from the top of the search stack back into it closes a cycle |
| DepCheck.Checker.CheckExpr | kconf/symbol.c:1179-1211 | searching an expression either finishes all groups it mentions or reports one on a cycle |
| DepCheck.Checker.CheckProp | kconf/symbol.c:1239-1253 | the same for the condition and, for defaults outside choices, the expression of a property |
| DepCheck.Checker.CheckConditions | kconf/symbol.c:1222-1235 | the same for the direct, reverse and implied dependencies of a symbol |
| DepCheck.Checker.CheckRefs | kconf/symbol.c:1214-1259 | the same for all expressions of a symbol; range bounds are not followed |
| DepCheck.Checker.CheckMembers | kconf/symbol.c:1282-1288 | the same for the members of a choice |
| DepCheck.Checker.CheckPlain | kconf/symbol.c:1307-1336 | the same for a symbol outside choices, which is a group of its own |
| DepCheck.Checker.CheckChoice | kconf/symbol.c:1261-1305 | the same for a choice and its members, which form one group |
| DepCheck.Checker.CheckSymbol | kconf/symbol.c:1307-1336 | the same for a symbol, with the result named after its choice |
| DepCheck.Checker.CheckAll | kconf/parser.y:592-596 | nothing is reported if and only if no group on a cycle is reached from a menu entry, and every reported symbol lies on such a cycle |
| DepCheck.CoveredAcyclic | kconf/parser.y:592-596 | when every cycle passes through a menu entry, nothing is reported if and only if the graph is acyclic |
| DepCheck.HiddenCycleExample | kconf/menu.c:379-387 | a menu entry selects two symbols without one, each under the condition of the other: they depend on each other and are not reached |
| Choice.ChosenIsTheYes | kconf/symbol.c:304-379 | when a member is visible, exactly one visible member is yes and it is the one returned, if and only if no outside default is picked |
| Choice.OutsideDefaultExample | kconf/symbol.c:278-286 | a visible default outside the choice is returned, and no member is yes |
| Choice.ChosenInOrder | kconf/symbol.c:272-379 | the first member by priority that is visible and set to y; else the first usable default or first visible member, unless set to n; else the first visible member without a user value; else the last visible one by priority |
| Choice.PrioritizedPermutes | kconf/symbol.c:609-635 | setting a choice permutes its priority list |
| Choice.PrioritizedOrder | kconf/symbol.c:609-635 | the visible members come first, in reverse menu order, then the others as they were |
| Choice.SetThenChosen | kconf/symbol.c:304-379 | after setting a visible member, with visibilities unchanged, that member is chosen |
| Choice.LeastPrioritizedIsFirst | kconf/symbol.c:346-359 | the least prioritized visible member is then the first visible one in menu order |
| Choice.DisappearedChoice | kconf/symbol.c:304-379 | when the member that was set becomes invisible, the first visible member is chosen |
| Choice.ChoiceMenu.DefaultSymbol | kconf/symbol.c:272-295 | the first applicable default that is visible, otherwise the first visible member |
| Choice.ChoiceMenu.FindYes | kconf/symbol.c:310-321 | the first member in priority order that is visible and was set to yes; visibilities are recomputed up to it |
| Choice.ChoiceMenu.FindUnset | kconf/symbol.c:333-359 | the first visible member without a user value, otherwise the least prioritized visible one |
| Choice.ChoiceMenu.Settle | kconf/symbol.c:361-376 | exactly the visible members get yes or no |
| Choice.ChoiceMenu.CalcChoice | kconf/symbol.c:304-379 | returns the specified member, recomputes visibilities up to it and sets the values of the visible members |
| Choice.ChoiceMenu.SetValue | kconf/symbol.c:604-639 | the user values and the priority list become the specified ones |
| ConfData.UnquotedEscaped | kconf/confdata.c:566-606 | unescaping an escaped string gives it back, for every string and whatever follows it |
| ConfData.UnquotedSpelled | kconf/confdata.c:266-280 | a quoted text is read by dropping one backslash before any character, up to the first quote without one |
| ConfData.UnquotedShape | kconf/confdata.c:266-280 | only such texts are read; one without an unescaped quote is refused |
| ConfData.EscapedSize | kconf/confdata.c:572-585 | the computed length is that of the escaped string and its terminator |
| ConfData.EscapeString | kconf/confdata.c:566-606 | the buffer holds the escaped string and is filled to its last byte |
| ConfData.UnescapeInPlace | kconf/confdata.c:266-280 | the in-place loop accepts exactly the texts with an unescaped closing quote and leaves the unescaped value; every access stays inside the buffer |
| ConfFile.SetString | kconf/confdata.c:264-293 | the string case with its buffer stores, rejects or ignores as specified |
| ConfFile.ReadSimple | kconf/confdata.c:407-482 | the reading loop leaves what reading the lines one by one leaves |
| ConfFile.ValueLine | kconf/confdata.c:431-444 | an assignment line is parsed into its name and value |
| ConfFile.UnsetLine | kconf/confdata.c:415-429 | an "is not set" line is parsed as n |
| ConfFile.ValidIntText | kconf/symbol.c:678-690 | the texts an int symbol accepts are the decimal numerals, with a minus sign or without |
| ConfFile.FileRestores | kconf/confdata.c:407-482 | reading a written file, with its comments, bars and blank lines, puts every printed value into the store, in order |
| ConfFile.LineRestoresIff | kconf/confdata.c:610-636 | the line printed for a symbol gives its value back if and only if no carriage return is lost |
| ConfFile.LostReturnExample | kconf/confdata.c:301-318 | a string ending in a carriage return that comes back from auto.conf without it |
| ConfFile.CommentParsed | kconf/confdata.c:415-429 | a comment line is passed over if and only if it does not read like the line of an unset symbol |
| ConfFile.MisleadingExample | kconf/confdata.c:853-857 | reading the line printed for a menu titled like the line of an unset symbol sets that symbol to n |
| ConfFile.SaveThenLoad | kconf/confdata.c:842-892 | a file written from any list of distinct symbols, with comments between them, gives each symbol its value back and sets no other |
| Preprocess.Lookup | kconf/preprocess.c:243-253 | the first variable of that name, or none has it |
| Preprocess.ClosingExact | kconf/preprocess.c:476-489 | the parenthesis found is the first that closes more than is open, and none is found only if no beginning of the text closes more than it opens |
| Preprocess.TokensSplit | kconf/preprocess.c:372-406 | the tokens joined by commas are the clause again, every comma left in a token is inside parentheses, and every cut is outside all of them |
| Preprocess.ExpandedLower | kconf/preprocess.c:255-281 | an expansion that succeeds gives the same value under all lower counters, so the counters only guard |
| Preprocess.PlainText | kconf/preprocess.c:502-544 | a text without a dollar sign expands to itself |
| Preprocess.ExpandedAppend | kconf/preprocess.c:502-544 | two texts in a row expand to their expansions in a row, if the first is complete by itself |
| Preprocess.AllowanceDrops | kconf/preprocess.c:264-278 | entering a variable lowers the sum of remaining expansions by one, the measure by which expansion ends |
| Macros.WholeNumberRead | kconf/preprocess.c:366-367 | white space, a sign, zeros and a numeral read as that number, saturated and with negative ones counted down from the top |
| Macros.WholeNumberShape | kconf/preprocess.c:366-367 | nothing else is read as a number to its end |
| Macros.ArgumentMeaning | kconf/preprocess.c:366-370 | the clause that is the numeral of k is the k-th argument of the enclosing call |
| Macros.ArgumentShape | kconf/preprocess.c:366-370 | every clause that stands for an argument is its numeral, up to white space, sign and zeros |
| Macros.NumberBeyondArguments | kconf/preprocess.c:359-368 | a number that no argument has is looked up like a name |
| Macros.NameMeaning | kconf/preprocess.c:420-437 | a name is its first variable, else a built-in function, else an environment variable, else empty; a variable under expansion ends the program |
| Macros.TokensOfJoined | kconf/preprocess.c:372-406 | splitting texts joined by commas gives them back, when their own commas are inside parentheses |
| Macros.CallMeaning | kconf/preprocess.c:350-446 | a call looks up its expanded first text with the expanded others as arguments, in that order of places; more than 16 texts end the program |
| Macros.CallFails | kconf/preprocess.c:414-418 | a name or argument that cannot be expanded ends the program |
| Macros.StopsAtEnd | kconf/preprocess.c:502-544 | plain text is copied up to the first end character, which is left unread |
| Macros.LoneDollars | kconf/preprocess.c:466-474 | a text in which no parenthesis follows a dollar sign expands to itself |
| Macros.ReferenceMeaning | kconf/preprocess.c:460-495 | a reference is the value of the clause between its parentheses, and the text after it is left |
| Macros.UnterminatedReference | kconf/preprocess.c:488-489 | a reference that nothing closes ends the program |
| Macros.TemplateFilled | kconf/preprocess.c:502-544 | numbered references in a text are replaced by the arguments, which are not expanded again |
| Macros.UserCall | kconf/preprocess.c:255-281 | a call of a user-defined function is its body with the expanded arguments in place of their numbers |
| Expander.SplitClause | kconf/preprocess.c:372-406 | the clause is split at exactly the commas outside parentheses, with an error for more than 16 tokens |
| Expander.FindClosing | kconf/preprocess.c:476-489 | the matching parenthesis is found, or there is none |
| Expander.Expander.FindVariable | kconf/preprocess.c:243-253 | the first variable of that name |
| Expander.Expander.ExpandTokens | kconf/preprocess.c:414-418 | name and arguments are expanded in order with the counters as they were |
| Expander.Expander.VariableExpand | kconf/preprocess.c:255-281 | the value is the specified one and every counter is back where it was unless the program ends |
| Expander.Expander.EvalClause | kconf/preprocess.c:350-446 | the same for a clause: the numeral of k is the k-th argument; Macros.CallMeaning and NameMeaning say what the others are |
| Expander.Expander.ExpandDollar | kconf/preprocess.c:460-495 | the same for the text after a dollar sign, with the position behind it |
| Expander.Expander.ExpandString | kconf/preprocess.c:502-544 | the same for a text up to its end character; it ends for every table of variables |
| Cmac.PrepareKey | backport-include/crypto/aes-cbc-macs.h:46-69 | an error of the cipher setup is passed on; otherwise the two final keys are the subkeys of section 2.3 of RFC 4493 |
| Cmac.SubkeysAreDoubled | backport-include/crypto/aes-cbc-macs.h:57-67 | read as 128-bit numbers, the subkeys are the encrypted zero block doubled once and twice |
| Cmac.DoubleWords | backport-include/crypto/aes-cbc-macs.h:62-64 | one doubling of the 128-bit number that two words spell |
| Cmac.FinalStep | backport-include/crypto/aes-cbc-macs.h:120-131 | the last step on the running state gives the MAC of section 2.4 of RFC 4493, for full, partial and empty last blocks |
| Cmac.FillTail | backport-include/crypto/aes-cbc-macs.h:83-93 | adding bytes to an open block is adding them to the message |
| Cmac.CmacContext.ChainBlocks | backport-include/crypto/aes-cbc-macs.h:102-114 | whole blocks are chained into the state |
| Cmac.CmacContext.UpdateBlocks | backport-include/crypto/aes-cbc-macs.h:95-117 | the last block stays open, also when it is full |
| Cmac.CmacContext.Update | backport-include/crypto/aes-cbc-macs.h:78-118 | the state of a message becomes the state of the message with the data appended |
| Cmac.CmacContext.Final | backport-include/crypto/aes-cbc-macs.h:120-131 | the output is the MAC of the message, and the state is wiped |
| Cmac.CmacOfChunks | backport-include/crypto/aes-cbc-macs.h:71-131 | updating with any chunks and finishing gives the MAC of their concatenation |
| Cmac.MacOfChunks | backport-include/crypto/aes-cbc-macs.h:46-131 | preparing a key, updating with any chunks and finishing gives the MAC of RFC 4493 as a function of the cipher and the message alone |
| Cmac.CmacAtOnce | backport-include/crypto/aes-cbc-macs.h:133-141 | the one-shot form gives the MAC of the data |
| Arc4.SchedulePermutes | compat/lib-crypto-arc4.c:21-32 | the table is a permutation of 0 to 255 after every step of the key setup |
| Arc4.AfterValid | compat/lib-crypto-arc4.c:54-68 | it stays one after any number of output bytes |
| Arc4.CryptConcat | compat/lib-crypto-arc4.c:38-72 | two calls are one call on the concatenation |
| Arc4.CryptTwice | compat/lib-crypto-arc4.c:38-72 | encrypting twice from the same state is the identity |
| Arc4.Arc4Context.Mix | compat/lib-crypto-arc4.c:24-32 | the swapping loop computes the key schedule, with the key index wrapping around |
| Arc4.Arc4Context.Round | compat/lib-crypto-arc4.c:55-62 | one round makes the textbook step and output, and prefetches the next values |
| Arc4.Arc4Context.SetKey | compat/lib-crypto-arc4.c:14-35 | the context holds the textbook key schedule |
| Arc4.Arc4Context.Encrypt | compat/lib-crypto-arc4.c:38-72 | the loop with prefetched values produces the textbook stream and leaves the textbook state, for every length |
| MulDiv.ProductFits | compat/backport-5.9.c:12-13 | a product that passes the logarithm test fits in 64 bits |
| MulDiv.ShiftedProductFits | compat/backport-5.9.c:33-43 | so does the product after bits were dropped |
| MulDiv.ShiftBelowWordSize | compat/backport-5.9.c:33-37 | the shift stays below 64 unless the top bits of a and of b % c are both set |
| MulDiv.SplitQuotient | compat/backport-5.9.c:14-31 | a * b / c is the quotient part times a plus the remainder part |
| MulDiv.MulDivWords | compat/backport-5.9.c:7-44 | the result is a * b / c rounded down, modulo 2^64, unless one bits are dropped; otherwise it is the truncated sum |
| MulDiv.TruncatedExample | compat/backport-5.9.c:33-43 | 2^63 * 3 / 5 comes out as 0 |
| Netlink.StreamAccepted | compat/backport-5.2.c:357-401 | a stream is accepted if and only if every attribute is and no bytes are left over under strict trailing |
| Netlink.ArrayAccepted | compat/backport-5.2.c:70-97 | an array is accepted if and only if every non-empty element is long enough and accepted |
| Netlink.StreamMonotone | compat/backport-5.2.c:357-401 | a stream accepted under some flags is accepted under every subset of them, through all nesting |
| Netlink.AttrMonotone | compat/backport-5.2.c:157-355 | for an attribute that is not rejected, fewer flags give the same result |
| Netlink.LastOf | compat/backport-5.2.c:388-389 | the last attribute of a type, or none has it |
| Netlink.RangeExact | compat/backport-5.2.c:99-155 | the limits of a policy accept exactly the values between them, for every attribute, if and only if no negative limit of an unsigned 64-bit attribute applies that admits a value |
| Netlink.KindAccepted | compat/backport-5.2.c:202-328 | an attribute passes the switch if and only if its length, terminator or bits are what a reader of its kind relies on and the kind is allowed |
| NetlinkConforms.ConformsExact | compat/backport-5.2.c:157-355 | an attribute is accepted if and only if it conforms: exact length and nesting mark where strict, a kind that is allowed, payload, limits and own check, and all it nests |
| NetlinkConforms.StreamConformsExact | compat/backport-5.2.c:357-401 | a stream is accepted if and only if all its attributes conform, with known types and no bytes left over where the flags ask for it |
| NetlinkConforms.AcceptedConforms | compat/backport-5.2.c:357-401 | every attribute of an accepted stream conforms, and an integer with limits lies within them unless one is misread |
| NetlinkConforms.HeaderAccepted | compat/backport-5.2.c:166-200 | the tests before the switch pass if and only if, where strict, integers have their size and exactly what nests is marked as nested |
| NetlinkConforms.KindErrorCode | compat/backport-5.2.c:202-328 | the switch fails with -EINVAL for rejected and unspecified kinds, bad bits and missing terminators, with -ERANGE otherwise |
| NetlinkConforms.StreamRoundTrip | compat/backport-5.2.c:369-391 | the loop over a stream visits exactly the attributes that were laid out in it, and leaves nothing over |
| NetlinkParse.ValidateString | compat/backport-5.2.c:231-256 | the two string cases with the final NUL |
| NetlinkParse.ValidateNla | compat/backport-5.2.c:157-355 | the result is the specified first error and not negative if and only if the attribute conforms; the recursion ends for every policy, also a self-referential one |
| NetlinkParse.ValidateArray | compat/backport-5.2.c:70-97 | the same for nested arrays |
| NetlinkParse.ValidateStream | compat/backport-5.2.c:357-401 | validation without a table gives the first error of the stream, and 0 if and only if the stream conforms |
| NetlinkParse.ValidateParse | compat/backport-5.2.c:357-401 | the result is the first error of the stream; tb[t] is the last accepted attribute of type t or NULL, and all of them on success |
| Pkcs7Trust.HopelessNotBacked | compat/verification/pkcs7_trust.c:38-76 | a certificate without any known key along its chain is not backed |
| Pkcs7Trust.BackedAlong | compat/verification/pkcs7_trust.c:124-129 | everything on a chain that leads to a backed certificate is backed |
| Pkcs7Trust.DeadEnd | compat/verification/pkcs7_trust.c:38-94 | a walk that met no key, even one that ran into a loop, leaves only hopeless certificates behind |
| Pkcs7Trust.LastResort | compat/verification/pkcs7_trust.c:96-112 | a block with no known key along its chain gets the verdict of its own key if its links reach a top over certificates not seen yet, and -ENOKEY otherwise; with a trusted key of its own it is accepted exactly in the first case |
| Pkcs7Trust.SearchDirect | compat/verification/pkcs7_trust.c:38-112 | the block's own key is tried only over such links, and over them -ENOKEY means that there is none |
| Pkcs7Trust.SearchExplained | compat/verification/pkcs7_trust.c:22-132 | what decides a block: after certificates without a trusted key, the cached verdict of one seen before, the first trusted key with the signature below it, an unknown root, or a key above the top or of the block |
| Pkcs7Trust.SelfSignedExample | compat/verification/pkcs7_trust.c:65-71 | a block with a trusted key of its own that an unknown self-signed certificate makes fail |
| Pkcs7Trust.CachedFailureExample | compat/verification/pkcs7_trust.c:39-44 | a block with a trusted key of its own that an earlier block makes fail |
| Pkcs7Trust.TrustCheck.WalkChain | compat/verification/pkcs7_trust.c:38-112 | the search has the specified outcome and ends on every graph of signer links |
| Pkcs7Trust.TrustCheck.AboveTheTop | compat/verification/pkcs7_trust.c:78-112 | a key above the last certificate, then one for the block; a match that verifies makes an anchor |
| Pkcs7Trust.TrustCheck.MarkVerified | compat/verification/pkcs7_trust.c:124-129 | exactly the chain up to the certificate is marked, and only backed certificates are |
| Pkcs7Trust.TrustCheck.ValidateTrustOne | compat/verification/pkcs7_trust.c:22-132 | the result is the one so decided; between 0 and -ENOKEY it is 0 if and only if the chain is backed or a trusted key of the block is reached over links not seen yet; the flags keep their meaning |
| Pkcs7Trust.TrustCheck.ValidateTrust | compat/verification/pkcs7_trust.c:158-187 | verified certificates reach an anchor; the overall result follows from the results of the blocks |
| Pkcs7Trust.OverallZero | compat/verification/pkcs7_trust.c:169-186 | the overall result is 0 if and only if some block gave 0 and none a hard error, -ENOKEY if and only if every block gave that, and a hard error if and only if a block gave it |
| Pkcs7Verify.ChainCheck.FindKey | compat/verification/pkcs7_verify.c:176-206 | the signer is the first certificate with the block's issuer and serial number |
| Pkcs7Verify.ChainCheck.FindIssuer | compat/verification/pkcs7_verify.c:263-286 | the issuer is the first certificate that the authority identifiers name |
| Pkcs7Verify.IssuerOfExact | compat/verification/pkcs7_verify.c:263-301 | the issuer is the first certificate with the issuer and serial number named, or without those the first with the key identifier; a key identifier given beside them must agree |
| Pkcs7Verify.ClimbedDistinct | compat/verification/pkcs7_verify.c:304-308 | a climb never visits a certificate twice |
| Pkcs7Verify.ChainCheck.NextMove | compat/verification/pkcs7_verify.c:224-319 | one round of the climb decides as specified; VerifySigChain says what that amounts to |
| Pkcs7Verify.ChainCheck.BlacklistPath | compat/verification/pkcs7_verify.c:230-239 | exactly the climbed path and the block become blacklisted |
| Pkcs7Verify.ChainCheck.VerifySigChain | compat/verification/pkcs7_verify.c:211-329 | the climb ends on every graph; each step goes to the issuer, which verifies; the result is 0 if and only if the end is blacklisted, self-signed or without an issuer here, or the issuer agrees and closes a loop, else -EKEYREJECTED for a disagreeing key identifier, else the error of the verification; the steps are the new links, with one to itself for a checkable root; a blacklisted end blacklists the path |
| Pkcs7Verify.BackedOverVerifiedLinks | compat/verification/pkcs7_verify.c:302-317 | a backed certificate reaches its anchor over verified links only |
| Pkcs7Verify.TwoClimbsMakeALoop | compat/verification/pkcs7_verify.c:221-308 | two certificates naming each other end up linked in a loop after two climbs |
| Pkcs7Loops.ClimbLoopFree | compat/verification/pkcs7_verify.c:224-319 | a climb over links without loops leaves none if and only if it ends in a self-signed certificate or the old links do not lead from its end back into it |
| Pkcs7Loops.FirstClimbLoopFree | compat/verification/pkcs7_verify.c:224-319 | the first climb of a message leaves no loop |
| Pkcs7Loops.TwoLinksLoop | compat/verification/pkcs7_verify.c:302-312 | the links of two certificates naming each other form a loop |
| S1gTim.OnesOfLowBits | include/linux/ieee80211-s1g.h:482-488 | the weight of the masked bitmap is the number of ones below the subblock |
| S1gTim.SubblockAt | include/linux/ieee80211-s1g.h:463-491 | a subblock lies at the number of subblocks announced before it, and is zero when absent |
| S1gTim.PayloadLength | include/linux/ieee80211-s1g.h:367-395 | an accepted payload is not empty and lies inside the TIM |
| S1gTim.FirstCovering | include/linux/ieee80211-s1g.h:397-401 | the first block that covers the target, or none does |
| S1gTim.FindTargetBlock | include/linux/ieee80211-s1g.h:402-461 | the first decoded block that covers the target, or the error at which decoding stops |
| S1gTim.ParseBitmapRight | include/linux/ieee80211-s1g.h:463-491 | the bit read from a block bitmap is that of the expanded bitmap, inside the map |
| S1gTim.ParseSingleRight | include/linux/ieee80211-s1g.h:493-505 | the same for a single AID |
| S1gTim.ParseOlbRight | include/linux/ieee80211-s1g.h:507-524 | the same for an OLB block over several blocks |
| S1gTim.CheckTim | include/linux/ieee80211-s1g.h:537-573 | for every TIM and AID the answer is that of the decoder that expands the first covering block |
| S1gEncode.DecodeWritten | include/linux/ieee80211-s1g.h:402-461 | decoding a row of written blocks gives them back |
| S1gEncode.BlockFaithful | include/linux/ieee80211-s1g.h:463-491 | the block bitmap written for the AIDs of a block, inverted or not, is read as exactly these AIDs |
| S1gEncode.SingleFaithful | include/linux/ieee80211-s1g.h:493-505 | the same for a block with a single AID, or with all but one |
| S1gEncode.OlbFaithful | include/linux/ieee80211-s1g.h:507-524 | the same for an OLB block over several blocks of AIDs |
| S1gEncode.MapAnnounces | include/linux/ieee80211-s1g.h:537-573 | a map of blocks of any encoding, in any order, that cover the blocks of a set of AIDs and hold its members announces exactly the AIDs of the set |

## Left out

- Dialogs, prompts and the command line (kconf/mconf.c, kconf/conf.c, kconf/mnconf-common.c).
- Files, environment and shell: texts, environment values and results of built-in functions are parameters.
- The lexer and grammar of Kconfig, including how the parser builds the menu; the tree is taken as parsed.
- The ASN.1 decoder, AES, hashes and public-key verification: abstract functions.
- The caching of values in `expr_calc_value` and the sharing of expression nodes: expressions are values here, so aliasing between them is not captured.
- `dir_dep` of a symbol (kconf/menu.c:464), SYMBOL_WARNED and the warnings of `sym_check_prop`.
- Printing the stack of a recursive dependency (kconf/symbol.c:1111-1177).
- The reordering of choice members while a file is read (kconf/confdata.c:474-481), and the CONFIG_ prefix taken from the environment.
- `pkcs7_verify`, `pkcs7_verify_one` and the digests, which wrap the modelled routines.
- Variable assignment (`variable_add`), which stores a text or its expansion, and `expand_one_token`, which calls the modelled expansion with another end test.
- Almost all other files of compat/, backport-include/ and include/: version shims, constants and thin wrappers.
- ExprRewriter.Rewriter.CancelCommonInPlace: the change counter is unbounded, not a C int.
- Arc4.Arc4Context.SetKey: an empty key, which the C code would read past, is excluded.
- Arc4.Arc4Context.Encrypt: input and output are values, so overlapping buffers are not captured.
- MulDiv.MulDivWords: `Lossless` is sufficient for an exact result and not necessary (2^32 times 2^31 + 1 over 2^64 - 1 drops a one bit and is still exact); how far the truncated sum may be off is not bounded; a shift by 64, undefined in C, is excluded.
- Macros.NumberBeyondArguments: fewer than 2^64 - 1 arguments are supposed, in ArgumentMeaning a number below 2^64; the code allows at most 15 arguments.
- Netlink.StreamAccepted: numbers in the stream are little-endian, the union of a policy entry is modelled as separate members, and a policy whose limits make the C code read behind the attribute is excluded; the same holds for ArrayAccepted, StreamMonotone, AttrMonotone and all of NetlinkConforms and NetlinkParse.
- ExprTransform.TransformSound: for a bool `A != y` the documented rule is modelled, not kconf/expr.c:649 as written.
- ExprForms.EquivalentExact: expressions with y or n operands are excluded, also from SameLevelExact, CancelledOperands, EquivalentIsEquivalence, the EliminateEq lemmas and SecondVanishes; for them only EquivalentSound is stated.
- MenuDeps.AdoptionMeaning: the condition on the superset test is sufficient and not shown to be necessary.
- MenuDeps.CoversPromptExact: conditions that come down to a constant, other than an absent prompt condition, or keep one under a NOT are excluded.
- MenuFinalize.Menu.Finalize: `dir_dep` of the symbols (kconf/menu.c:464) is not part of the state.
- MenuFinalize.Menu.FinalizeAll: `dir_dep` of the symbols (kconf/menu.c:464) is not part of the state.
- ConfFile.ReadSimple: choice members are not reordered (kconf/confdata.c:474-481).
- ConfFile.SaveThenLoad: which comments stand between the symbols is given; the walk over the menus that prints them is not modelled.
- DepCheck.Checker.CheckAll: the transitional and choice sanity checks beside it are not modelled.
