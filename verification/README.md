# EpicSim elaboration: a verified model

EpicSim compiles Verilog. Elaboration turns the parsed tree into a netlist, and the constant-propagation pass
rewrites that netlist. This project models five connected parts of it and proves what they promise.

* **Sizing and signedness of expressions** (`WidthTest`, `ParsedExpr`, `Coherence`, `Lossless`, `LosslessLimits`,
  `Pruning`, `Comparison`, `Standard`). The bottom-up width test passes a mode by reference and stores width,
  minimum width and sign in each node; the top-down pass pushes one width and one sign to the leaves.
  `ParsedExpr.PExpr` is the parsed node with its stored fields; its methods are proved equal to the functions in
  `WidthTest`, and the theorems are about those functions.
* **Folding during elaboration** (`NetExpr`, `VecOps`, `Logic4`): the trees built for shifts, products,
  conditionals and `!`, over four-state vectors.
* **Constant propagation** (`Netlist`, `Rewrites`, `Constants`, `CpropRewrites`, `MergeRewrite`, `CpropSteps`,
  `DanglingConstants`, `RewriteExactness`, `CpropDuties`, `Design`, `CpropFunctors`, `CpropPass`, `CpropLimits`). A netlist is a
  graph of nodes and nexuses, cycles allowed. A valuation is consistent when every nexus carries the resolution of
  what drives it and every device behaves. `World` leaves open how devices behave, what they drive, and what comes
  from outside; a rewrite is right when it keeps the consistent valuations, in every world, on everything the
  result observes.
* **Addresses** (`SelectAddress`, `ParamSelect`, `LValues`, `ConcatAssign`, `ConcatExpr`): selects with constant
  indices on nets and parameters, concatenations as targets and as expressions.
* **Scopes** (`Enumeration`, `ScopePaths`, `ScopeTree`, `ScopeLaws`, `Scopes`): enumeration values, and the recursion check and
  work list that build the scope tree. `ScopeTree` says which children a scope calls for, without reference to the
  order of elaboration; `Scopes` is proved to build exactly that tree, and `ScopeLaws` says which blocks and
  instances are in it.

Vectors are sequences of four-state bits, least significant first. The width rules are those of sections 5.4 and
5.5 of IEEE Std 1364-2005, the operators those of sections 5.1.5, 5.1.9, 5.1.12 and 5.1.13.

Where the code does less than its comments or its other branches suggest, the model follows the code; lemmas give
the condition under which it does what it promises, and an input for which it does not:

* A tri0 or tri1 port of the root module counts as a constant 0 or 1, although the outside may override the pull.
  A nexus found constant carries its driven vector whatever the outside does exactly when no bit of it comes from
  such a port (`AsDrivenExactlyWhen`). Where the folded node alone drives its target, folding keeps what can be
  seen in a world exactly when its inputs carry what the inside drives, or nobody looks
  (`ConcatFoldExactlyWhen`, `MuxFoldExactlyWhen`, `TriConcatBreaks`, `TriMuxBreaks`).
* Deleting a flip-flop that feeds itself loses the value it holds (`HeldValueIsLost`). Where it alone drives its
  net, that is right exactly when nothing else looks at the net or the flip-flop holds z (`FlopDropExactlyWhen`).
  The deletion is not counted, so the loop can end with a node that has become rewritable (`StaleRun`).
* Deleting a dangling constant ignores bidirectional switches. Without one it is always right
  (`DropDanglingPreserves`); behind a closed one that leads to a net somebody looks at, exactly when its own net
  carries the same without it (`DanglingDropExactlyWhen`, `SwitchedLosesValue`). The comment on that pass also
  promises to delete signals; the code only deletes the constant. Deleting the last node of the list ends the scan
  one node early (`ScanDangling`).
* On an ascending range the r-value shortcuts for `+:` and `-:` return the whole signal for a select that names
  other bits (`RvalUp`, `RvalDown`, `RvalShortcutReadsWrongBits`, `RvalDownShortcutReadsWrongBits`), and `-:` wider
  than one bit on a one-element range is off in both the l-value and the r-value code (`LvalBase`,
  `OneElementDownIsOff`). The r-value `-:` also asserts that the signal has one packed dimension.
* An unsigned power with exponent 0 can get width 0 (`PowerWidthIsBound`).
* Shifts and powers do not always get the room that the mode promises. A sized left operand of `<<` keeps its
  size, which is enough for a literal exactly when the shifted value fits it, and for an operand exactly when the
  amount is 0 (`SizedShiftExactlyWhen`, `OperandShiftExactlyWhen`, `SizedShiftDoesNotFit`); so does a sized literal
  as the base of a power (`SizedBaseExactlyWhen`, `PowerOfSizedDoesNotFit`); a sum under a shift is tested for
  itself (`SumUnderShiftIsNotExact`); and a shift by a variable amount is cut at an integer
  (`VariableShiftExactlyWhen`, `ShiftOfWideDoesNotFit`).
* An unsized signed based literal with a leading 1, such as `'shF`, is extended with ones where section 3.5.1
  of IEEE Std 1364-2005 has zeros (`LiteralIsStandard`, `SignedHexLiteral`).
* Operands of mixed signedness are compared by their bits read as unsigned, also when the comparison was given an
  extra bit (`MixedSignsReadUnsigned`, `MixedOperandsExactlyWhen`, `MixedSignsCompareUnsigned`).
* An enumeration value that already has the width of the enumeration keeps its bits, not its integer, when the
  signedness differs under a set top bit (`AcceptedKeepsInteger`, `SameWidthChangesInteger`).
* In a one-bit signed enumeration the increment reads as -1 and the largest value is computed as 2, so the second
  implicit name wraps to -1 without an error (`UncheckedWrap`, `OneBitSignedWraps`).

## Model

| member | source | states |
|---|---|---|
| ParsedExpr.PExpr.TestWidth | ivl/elab_expr.cc:244-328 | the recursive test, run on the object tree with its stored fields, returns the width and mode of the specification function and leaves every node holding the fields that function gives |
| ParsedExpr.PExpr.TestNumber | ivl/elab_expr.cc:5723-5750 | a literal: integer width unless lossless, UNSIZED or UPSIZE entered as specified, fields stored |
| ParsedExpr.PExpr.TestOperands | ivl/elab_expr.cc:249-264 | operands tested in order, the first one again when the second raises the mode to LOSSLESS: equals the specification of the pair |
| ParsedExpr.PExpr.TestBinary | ivl/elab_expr.cc:244-328 | arithmetic and bitwise operators: returned width, mode and stored fields equal the specification |
| ParsedExpr.PExpr.TestCompare | ivl/elab_expr.cc:539-593 | comparison: operands tested in a fresh SIZED mode, the common adjusted widths stored for the second pass |
| ParsedExpr.PExpr.TestLeftWidth | ivl/elab_expr.cc:688-834 | shifts and power: fresh SIZED mode for the left operand, copied out only when the incoming mode is SIZED, lossless width from the best guess at the right operand |
| ParsedExpr.PExpr.TestTernary | ivl/elab_expr.cc:5828-5885 | conditional: the branches' widths, modes and signs combined as specified |
| ParsedExpr.PExpr.TestUnary | ivl/elab_expr.cc:6041-6075 | unary operators pass the operand's width, minimum width and sign through |
| ParsedExpr.PExpr.FixWidth | ivl/elab_expr.cc:139-146 | the stored width is raised to an integer in UPSIZE mode only, the returned one never |
| ParsedExpr.PExpr.ElaborateExpr | ivl/elab_expr.cc:335-376 | the second pass over the object tree builds the tree of the specification from the stored fields |
| ParsedExpr.PExpr.ElabAndEval | ivl/netmisc.cc:799-930 | test, then elaboration at the stored width and sign, then evaluation, equal the specification |
| Coherence.SignStored | ivl/elab_expr.cc:281-290 | whatever the mode, the sign stored at a node is determined by its operands alone |
| Coherence.ModeRises | ivl/elab_expr.cc:249-264 | the mode never falls, and EXPAND is never entered from a lower mode |
| Coherence.NeighbourModes | ivl/elab_expr.cc:244-328 | UPSIZE computes the width of LOSSLESS, UNSIZED that of an undisturbed SIZED |
| Coherence.RetestIsStable | ivl/elab_expr.cc:249-264 | for every expression and mode, testing again from the final mode returns the same width, stored width and mode |
| Coherence.PairStable | ivl/elab_expr.cc:5834-5844 | one conditional retest of the first operand is enough for both operands to stay as tested |
| Standard.SizedWidth | ivl/elab_expr.cc:244-328 | a test that starts and ends in SIZED mode returns and stores the width of section 5.4.1 of IEEE Std 1364-2005 |
| Standard.WellSizedWidth | ivl/elab_expr.cc:688-714 | without oversized literals the mode stays below EXPAND and every width is the standard one |
| Standard.LiteralIsStandard | ivl/elab_expr.cc:5785-5796 | a literal gets the vector of section 3.5.1 of IEEE Std 1364-2005, at any width and pushed sign, if and only if it is sized, has a leading 0 or is filled with nothing that depends on its sign |
| Standard.SignedHexLiteral | ivl/elab_expr.cc:5785-5796 | a concrete literal that is extended otherwise |
| Standard.ElaborationIsStandard | ivl/elab_expr.cc:335-376 | both passes together evaluate every expression whose literals meet that condition as the standard's recursive rules for width and sign do |
| Standard.PlainIsAlike | ivl/elab_expr.cc:5785-5796 | without oversized literals, expressions whose unsized signed literals have a leading 0 meet it at every width and sign |
| Standard.CompareIsStandard | ivl/elab_expr.cc:595-648 | operands of a comparison are evaluated at their common width and sign, as the standard says |
| Standard.LeftWidthIsStandard | ivl/elab_expr.cc:836-868 | the right operand of a shift or power is self-determined, the left one takes the context, as the standard says |
| ElabMeaning.ElaboratedShape | ivl/elab_expr.cc:335-376 | the tree built for a pushed width and sign has exactly that width and sign |
| ElabMeaning.MeaningBinary | ivl/elab_expr.cc:335-476 | the tree of a binary operator means the operator on its operands' trees at the pushed width |
| ElabMeaning.MeaningCompare | ivl/elab_expr.cc:595-648 | the tree of a comparison means the comparison at the stored operand widths, extended to the context |
| ElabMeaning.MeaningTernary | ivl/elab_expr.cc:5905-5984 | the tree of a conditional means the four-state conditional, with a self-determined condition |
| Pruning.RingMeaning | ivl/elab_expr.cc:282-305 | a tree of + - * & or xor not << and conditionals over defined operands computes its integer value modulo any width that holds its operands |
| Pruning.PruningIsSound | ivl/PExpr.h:81-86 | evaluating at a smaller width gives the low bits of evaluating at a larger one |
| Pruning.MinWidthMarksPruning | ivl/elab_expr.cc:282-305 | the minimum width is UINT_MAX exactly when some operator below, however deep, does not commute with truncation; otherwise it covers every operand |
| Pruning.MinWidthIsLargest | ivl/elab_expr.cc:282-305 | where pruning is right, the minimum width is that of the widest operand, in every mode |
| Pruning.PrunedWidth | ivl/netmisc.cc:836-860 | an assignment to fewer bits elaborates at the target's width or the widest operand's, whichever is larger, if pruning is right, and else at the full width |
| Pruning.AssignedBitsAreExact | ivl/netmisc.cc:836-860 | the bits an assignment keeps, after pruning, are the low bits of the exact integer value, whenever shift amounts are constant, operands fit the target, or the width exceeds the target |
| Lossless.SumFits | ivl/elab_expr.cc:281-296 | one bit more than the wider operand holds a sum, and a difference of signed values |
| Lossless.ProductFits | ivl/elab_expr.cc:298-300 | the sum of the widths holds a product |
| Lossless.PowerWidthIsBound | ivl/elab_expr.cc:787-796 | the lossless width holds every power of every base of that width if and only if the operands are signed or the exponent is at least 1 |
| Lossless.PowerWidthIsTight | ivl/elab_expr.cc:787-796 | for even exponents from 2 on, one bit less fails |
| Lossless.LeftShiftFits | ivl/elab_expr.cc:771-777 | width plus amount holds a left shift |
| Lossless.WidthIsLeast | ivl/elab_expr.cc:281-300 | in a lossless mode the width of a sum, signed difference or product is the least that holds it for all operand values of the tested widths; an unsigned product with a one-bit factor gets one bit too many |
| Lossless.ShiftWidthIsLeast | ivl/elab_expr.cc:771-777 | so is the width of a left shift by a constant whose left operand is not SIZED |
| Lossless.UnsignedPowLenFits | ivl/elab_expr.cc:788-790 | the length computed for a power of constants holds it |
| Lossless.LosslessIsExact | ivl/PExpr.h:99-121 | an expression of one signedness whose test ends in EXPAND or LOSSLESS is sized so that its exact value fits, and every wider evaluation gives that value |
| Lossless.RingExact | ivl/elab_expr.cc:282-305 | an expression that only needs low bits is computed exactly, at its tested width and every wider one, if and only if its exact value fits the tested width |
| LosslessLimits.SizedShiftExactlyWhen | ivl/elab_expr.cc:771-775 | a sized literal shifted by a constant is tested at its own width, and exact if and only if the shifted value fits it |
| LosslessLimits.OperandShiftExactlyWhen | ivl/elab_expr.cc:771-775 | an operand shifted by a constant is exact for every value if and only if the amount is 0 |
| LosslessLimits.VariableShiftExactlyWhen | ivl/elab_expr.cc:806-810 | a literal shifted by a variable is exact for every amount if and only if it is for the largest |
| LosslessLimits.SizedShiftDoesNotFit | ivl/elab_expr.cc:771-775 | a concrete product over such a shift whose lossless width does not hold its value |
| LosslessLimits.SumUnderShiftIsNotExact | ivl/elab_expr.cc:705-714 | a concrete sum under a shift that has no room although the mode promises it |
| LosslessLimits.SizedBaseExactlyWhen | ivl/elab_expr.cc:787-791 | a sized literal raised to a constant gets a width that holds the exact power if and only if the power fits the literal |
| LosslessLimits.PowerOfSizedDoesNotFit | ivl/elab_expr.cc:787-791 | a concrete product over such a power whose lossless width does not hold its value |
| LosslessLimits.ShiftOfWideDoesNotFit | ivl/elab_expr.cc:805-810 | a concrete shift called lossless whose exact value never fits |
| Comparison.ComparisonIsExact | ivl/elab_expr.cc:549-583 | lossless operands of one signedness compare as their exact integers |
| Comparison.MixedSignsReadUnsigned | ivl/elab_expr.cc:549-583 | any operands of mixed signedness compare as the low bits of their values read as unsigned |
| Comparison.MixedOperandsExactlyWhen | ivl/elab_expr.cc:549-583 | a signed operand is compared correctly with an unsigned one if and only if it is not negative or the verdict stands with its bits read as unsigned, operator by operator |
| NetExprs.MakeShiftMeaning | ivl/elab_expr.cc:883-1011 | the folded shift (undefined, zero, zero amount, over-wide logical and arithmetic) means the plain shift, for all operands, widths and signs |
| NetExprs.MakeMultMeaning | ivl/elab_expr.cc:503-537 | the folded product means the plain product |
| NetExprs.ConditionReduceMeaning | ivl/netmisc.cc:764-797 | reducing a condition to one bit keeps its truth value |
| NetExprs.MakeTernaryMeaning | ivl/elab_expr.cc:5915-5984 | the folded conditional means the four-state conditional |
| NetExprs.FoldNot | ivl/elab_expr.cc:6184-6214 | logical negation of a constant, decided from the counts of ones and undefined bits, is the reduction it stands for |
| NetExprs.BoolIsDefined | ivl/elab_expr.cc:883-1011 | an expression of two-state type never evaluates to x or z |
| VecOps.RingFromInt | ivl/elab_expr.cc:378-476 | vector arithmetic is integer arithmetic modulo the width |
| VecOps.ShiftRightFromInt | ivl/elab_expr.cc:883-1011 | a right shift of a value that fits divides it by the power of two, rounding down |
| VecOps.CompareFromInt | ivl/elab_expr.cc:602-618 | vector comparison of values that fit is integer comparison |
| Rewrites.SwapConsistent | ivl/cprop.cc:96-109 | replacing drivers of a nexus by others that drive the same bits keeps exactly the consistent valuations, on cyclic netlists too |
| Constants.ConstantMeaning | ivl/link_const.cc:31-128 | what a nexus found constant carries in every consistent valuation, also after a driver elsewhere is replaced: its driven vector, but for what the outside drives onto pulling ports of the root |
| Constants.AsDrivenExactlyWhen | ivl/link_const.cc:66-95 | that is the driven vector in every world if and only if no bit of it comes, through substitutions or directly, from a tri0 or tri1 port of the root |
| CpropDuties.ConstantIsFound | ivl/link_const.cc:97-193 | a net of plain wires, assigned by no process, whose one driver is a constant is found constant, with the constant's vector and its first bit |
| CpropDuties.SubstituteIsFound | ivl/link_const.cc:31-128 | so is one whose one driver is a substitution of nets found constant: the part laid over the whole |
| CpropDuties.UndrivenIsFound | ivl/link_const.cc:97-193 | a net without drivers is found z, or what its supply, tri0 or tri1 signal gives |
| CpropDuties.ValueIsCarried | ivl/link_const.cc:130-193 | the value read of a net found constant that no substitution drives is the first bit it carries, in every consistent valuation in which it carries its driven vector |
| Constants.OpaqueNotConstant | ivl/link_const.cc:97-112 | a nexus with a driver that is neither a constant nor a substitution is never found constant |
| CpropRewrites.FoldConcatPreserves | ivl/cprop.cc:74-112 | replacing a concatenation of constants by their joined value keeps every observable valuation of every world in which its inputs carry what they are driven to |
| CpropRewrites.FoldMuxPreserves | ivl/cprop.cc:135-173 | the same for replacing a multiplexer with a constant defined select by a buffer |
| CpropRewrites.StackedIsDisjoint | ivl/cprop.cc:222-237 | after sorting, comparing neighbours decides whether any two parts overlap |
| CpropRewrites.PickIsDriver | ivl/cprop.cc:197-214 | disjoint parts drive at most one value on each bit: that of the part covering it |
| CpropRewrites.LayoutTiles | ivl/cprop.cc:272-290 | the inputs of the concatenation tile the target exactly, and each bit is its part's bit or z |
| MergeRewrite.MergePreserves | ivl/cprop.cc:190-298 | merging part selects into a concatenation with z in the gaps keeps every observable valuation |
| CpropSteps.ConcatStep | ivl/cprop.cc:74-112 | folding a concatenation keeps the netlist well formed, lowers the count of rewritable nodes and, without pulling root ports, is equivalent in every world |
| CpropSteps.MuxStep | ivl/cprop.cc:135-173 | the same for a multiplexer |
| CpropSteps.MergeStep | ivl/cprop.cc:190-298 | merging two part selects or more keeps the netlist well formed and lowers the count of rewritable nodes, and is equivalent |
| CpropSteps.TilingWhenSorted | ivl/cprop.cc:225-250 | on sorted parts, the neighbour check and the check of the last part decide whether all are apart and inside the target |
| CpropDuties.MuxMustFold | ivl/cprop.cc:135-159 | a multiplexer of two inputs whose one-bit select holds a constant folds if and only if that is 0 or 1, to a buffer from that input |
| CpropDuties.ConcatMustFold | ivl/cprop.cc:74-112 | an opaque concatenation whose inputs all hold constants folds |
| CpropDuties.FoldedBits | ivl/cprop.cc:79-90 | the constant it folds to has each input's constant at the offset that the inputs before it make |
| CpropDuties.PartsMustMerge | ivl/cprop.cc:197-250 | part selects are merged if and only if two or more are all that is linked to the net as outputs, no two meet, none runs off its end, and its signals are wires |
| Designs.Design.AddNode | ivl/net_design.cc:840-853 | the node list keeps every node once; the new node is the list head |
| Designs.Design.DelNode | ivl/net_design.cc:855-878 | the node leaves the list and a running scan goes on with its successor |
| CpropFunctors.CpropFunctor.LpmConcat | ivl/cprop.cc:74-112 | folds exactly when the node is not transparent and all inputs are constant, to the joined value, and always when each input holds a constant; otherwise changes nothing |
| CpropFunctors.JoinConstants | ivl/cprop.cc:79-90 | the loop stops exactly at a non-constant input, and else has joined the driven vectors of all of them |
| CpropFunctors.CpropFunctor.LpmMux | ivl/cprop.cc:135-173 | folds exactly for two inputs and a one-bit select with a constant defined value; with `Const([b])` alone on the select, replaces the node by a buffer from input b and counts it when b is 0 or 1, and changes nothing when b is x or z |
| CpropFunctors.CpropFunctor.CollectParts | ivl/cprop.cc:197-214 | succeeds exactly when part selects are all that drives the nexus, with all of them |
| CpropFunctors.CpropFunctor.SortByBase | ivl/cprop.cc:223-223 | a permutation sorted by base |
| CpropFunctors.CpropFunctor.CanTile | ivl/cprop.cc:225-250 | true exactly when the parts are apart and inside the target |
| CpropFunctors.CpropFunctor.CountPins | ivl/cprop.cc:252-264 | counts exactly the inputs that the connecting loop makes |
| CpropFunctors.CpropFunctor.ConnectParts | ivl/cprop.cc:272-291 | connects parts and z constants in the layout that tiles the target; the pin count assertion holds |
| CpropFunctors.CpropFunctor.LpmPartSelect | ivl/cprop.cc:190-298 | merges exactly when the nexus is driven by two part selects or more, pairwise apart and inside, and nothing else; the result is that merge and an equivalent netlist; otherwise changes nothing |
| CpropFunctors.CpropFunctor.LpmFf | ivl/cprop.cc:114-126 | deletes exactly flip-flops whose data and output pins are tied together and whose set and clear pins are free |
| CpropPass.Scan | ivl/functor.cc:97-137 | a scan over a list that changes under it ends and counts its rewrites against the rewritable nodes; it counts none if and only if no node can be rewritten at the moment it is looked at, and then leaves the netlist without the self-fed flip-flops it met; without such and without pulling root ports it keeps observable valuations |
| CpropPass.Propagate | ivl/cprop.cc:391-400 | the do-while loop ends within one round more than there are rewritable nodes, without self-fed flip-flops at a netlist where no rewrite applies, and after one round when the first scan counts nothing |
| CpropPass.CpropDcFunctor.LpmConst | ivl/cprop.cc:316-386 | deletes exactly constants that are all z, or whose nexus no node reads and every signal of which is local, read by no expression, and no port of the root |
| CpropPass.ScanDangling | ivl/cprop.cc:405-406 | only removable constants go; all go when the last node of the list is not one, and else at most the new last node remains |
| CpropPass.Cprop | ivl/cprop.cc:388-411 | the whole pass ends, on every netlist; it keeps the observable valuations when no root port is tri0 or tri1, no flip-flop feeds itself, and switches sit on nets that can be seen |
| RewriteExactness.ConcatFoldExactlyWhen | ivl/cprop.cc:82-90 | netlist by netlist and world by world: folding a concatenation that alone drives its target keeps what can be seen if and only if nobody looks at the target or every input carries its driven vector |
| RewriteExactness.ConcatFoldEquivalentExactlyWhen | ivl/cprop.cc:82-90 | over all worlds, for a target that is looked at: if and only if no input bit comes from a tri0 or tri1 port of the root |
| CpropLimits.TriConcatBreaks | ivl/cprop.cc:82-90 | a concrete concatenation whose folding changes what can be seen |
| RewriteExactness.MuxFoldExactlyWhen | ivl/cprop.cc:139-151 | the same for a multiplexer whose data tell which one is selected: if and only if the select carries its driven bit |
| CpropLimits.TriMuxBreaks | ivl/cprop.cc:139-151 | a concrete multiplexer whose folding changes what can be seen |
| DanglingConstants.DropFlopPreserves | ivl/cprop.cc:114-126 | deleting a self-fed flip-flop keeps every observable valuation when nothing else reads its output, no switch is attached and it cannot be seen |
| RewriteExactness.FlopDropExactlyWhen | ivl/cprop.cc:114-126 | netlist by netlist, in worlds where such flip-flops drive their state: deleting one that alone drives its net is right if and only if nothing else looks at the net or the state is all z |
| CpropLimits.HeldValueIsLost | ivl/cprop.cc:114-126 | deleting a self-fed flip-flop loses any value it holds |
| CpropLimits.StaleRun | ivl/cprop.cc:391-400 | a run of the loop that ends after one round with a concatenation that can be folded, because the deletion of a flip-flop behind it was not counted |
| CpropLimits.SwitchedRun | ivl/cprop.cc:388-411 | a whole run on a net with a hidden switch, after which what can be seen has changed |
| DanglingConstants.DropZPreserves | ivl/cprop.cc:317-333 | deleting an all-z constant keeps every observable valuation |
| DanglingConstants.DropDanglingPreserves | ivl/cprop.cc:335-385 | deleting an unread constant keeps them when no switch is attached |
| RewriteExactness.DanglingDropExactlyWhen | ivl/cprop.cc:316-386 | netlist by netlist and world by world: deleting a dangling constant that a closed switch connects to a net somebody looks at is right if and only if its own net carries the same without it |
| DanglingConstants.SwitchedLosesValue | ivl/cprop.cc:316-386 | a concrete netlist where it does not, for every value |
| SelectAddress.SbToIdx | ivl/netlist.cc:707-740 | the loop from the innermost dimension outwards computes the row-major position |
| SelectAddress.RowMajorStep | ivl/netlist.cc:707-740 | moving one index by one towards its left bound moves the position up by the number of elements of the dimensions after it |
| SelectAddress.OriginIsZero | ivl/netlist.cc:707-740 | the element with every index at its right bound is at position 0 |
| SelectAddress.CanonicalInside | ivl/netlist.cc:707-740 | every declared element has a position inside the vector |
| SelectAddress.CanonicalInjective | ivl/netlist.cc:707-740 | different declared elements have different positions |
| SelectAddress.CoversOnlyLowBase | ivl/elab_net.cc:249-262 | exactly one base covers the positions of the indices that an indexed select names |
| SelectAddress.LvalBase | ivl/elab_lval.cc:897-919 | the base of a procedural target covers exactly the named indices, if and only if it is not a wide downward select on a one-element range |
| SelectAddress.EvalPartSelect | ivl/elab_net.cc:249-298 | the bounds of a structural target cover exactly the named indices; rejected exactly when all are outside |
| SelectAddress.CoverIsUnique | ivl/elab_net.cc:249-262 | so the two agree whenever the procedural base covers the named indices |
| SelectAddress.SkipSelectsAll | ivl/elab_lval.cc:916-919 | a skipped select names all bits of the vector |
| SelectAddress.RvalUp | ivl/elab_expr.cc:5024-5043 | the r-value form reads the named bits, if and only if the shortcut is not taken for a wide select on an ascending range |
| SelectAddress.RvalDown | ivl/elab_expr.cc:5115-5140 | the same for the downward form, with its own exact condition and the assertion on one dimension |
| SelectAddress.RvalShortcutReadsWrongBits | ivl/elab_expr.cc:5029-5038 | a concrete select for which the shortcut reads other bits than named |
| SelectAddress.RvalDownShortcutReadsWrongBits | ivl/elab_expr.cc:5115-5140 | the same for a downward select |
| SelectAddress.OneElementDownIsOff | ivl/elab_lval.cc:897-919 | a concrete downward select on a one-element range whose procedural base is wrong |
| ParamSelects.BitSelect | ivl/elab_expr.cc:4252-4307 | a bit select picks the bit of the declared index, extends an unsized parameter by its sign, and gives x elsewhere |
| ParamSelects.PartSelectBits | ivl/elab_expr.cc:4192-4216 | the loop yields, bit by bit, what bit selects of the positions give |
| ParamSelects.PartSelect | ivl/elab_expr.cc:4322-4422 | x for undefined bounds, an error exactly when the select runs against the range, and else every bit is the bit select of its index |
| ParamSelects.IndexedUp | ivl/elab_expr.cc:4484-4525 | every bit is the bit select of the index it is named by; x for an undefined base |
| ParamSelects.IndexedDown | ivl/elab_expr.cc:4563-4605 | the same for the downward select |
| ParamSelects.NthIsNamed | ivl/elab_expr.cc:4495-4519 | these are exactly the named indices, each once, at consecutive positions |
| ParamSelects.UnsizedWindowIsValue | ivl/elab_expr.cc:4204-4209 | the low bits of an unsized parameter are its integer value at any width |
| LValues.Splice | ivl/elab_lval.cc:136-141 | linking two lists through the last node gives the list of both, in order |
| LValues.ElaborateLval | ivl/elab_lval.cc:96-146 | the linked list is the least-significant-first flattening of any nested concatenation, all unsigned; an error exactly when some operand is in error |
| ConcatAssign.ConnectOperands | ivl/elab_net.cc:133-152 | the part selects tile the vector from the top down to 0 |
| ConcatAssign.ElaborateLnet | ivl/elab_net.cc:43-156 | succeeds exactly when every operand does; the leaves are those of the linked list |
| ConcatAssign.DeliverIsSlices | ivl/elab_net.cc:96-153 | the part selects hand every leaf exactly the bits that the linked list hands it |
| ConcatAssign.OperandAt | ivl/elab_lval.cc:107-143 | a target written in a concatenation is read from above exactly the bits of the targets written after it |
| ConcatAssign.SliceIsAssigned | ivl/elab_lval.cc:107-143 | after an assignment to distinct targets, each holds the slice it was handed |
| ConcatAssign.AssignThenRead | ivl/elab_lval.cc:107-143 | assigning to distinct targets and reading them back returns the value |
| ConcatAssign.AssignExprThenRead | ivl/elab_lval.cc:107-143 | the same when the concatenation is read as an expression |
| ConcatExprs.PEConcat.Test | ivl/elab_expr.cc:2806-2881 | the width is the sum of the operands' tests from the modes they were left in, times the repeat count |
| ConcatExprs.RetestConcat | ivl/elab_expr.cc:2806-2812 | running the width test again returns the same width and leaves the modes as they are |
| ConcatExprs.Compact | ivl/elab_expr.cc:2977-2986 | the compaction loop stays in bounds and keeps exactly the operands not left out, in order |
| ConcatExprs.RepeatedAt | ivl/elab_expr.cc:2978-3000 | bit k of a replication is bit k modulo the operand's width |
| ConcatExprs.OperandAt | ivl/elab_expr.cc:2904-3000 | an operand of a concatenation stands above exactly the bits of the operands written after it |
| ConcatExprs.Elaborator.ElaborateConcat | ivl/elab_expr.cc:2904-3000 | no new error exactly for sound operands and repeat counts; bit k of the node is then bit k modulo their width of the joined operands, zero beyond them up to the width of the context, and the depth counter is restored |
| Enumerations.AcceptedWhenItFits | ivl/elab_scope.cc:216-272 | a defined value of another width is accepted if and only if the enumeration can hold its integer |
| Enumerations.AcceptedKeepsInteger | ivl/elab_scope.cc:216-277 | an accepted defined value keeps its integer if and only if it is not a same-width value whose sign changes under a set top bit |
| Enumerations.EqualIsSameValue | ivl/verinum.cc:763-783 | constants of one signedness are equal, whatever their lengths, if and only if they stand for one integer |
| Enumerations.EqualIsUnsigned | ivl/verinum.cc:763-783 | constants of different signedness are equal if and only if they are as unsigned numbers |
| Enumerations.SuccessorAddsOne | ivl/elab_scope.cc:311-316 | the next value is one more if and only if the value is not the largest |
| Enumerations.RefusedExactlyWhen | ivl/elab_scope.cc:311-316 | an implicit name after a defined value is refused if and only if that is the largest integer the enumeration holds and the enumeration is not one-bit signed |
| Enumerations.CountingIsLegal | ivl/elab_scope.cc:161-317 | new distinct names without values of their own are all legal if and only if there are at most 2^width of them, or 2^(width-1) when signed, one-bit signed enumerations apart; the k-th then has value k |
| Enumerations.UncheckedWrap | ivl/elab_scope.cc:164-179 | past the check for the maximum, the next value is one more if and only if it is not 0 in a one-bit signed enumeration |
| Enumerations.OneBitSignedWraps | ivl/elab_scope.cc:164-179 | such an enumeration with two implicit names is accepted with values 0 and -1 |
| Enumerations.LegalValues | ivl/elab_scope.cc:161-317 | without errors, values are pairwise distinct and of the width of the enumeration; an implicit one is 0 or follows its predecessor by one, if and only if that is not 0 in a one-bit signed enumeration |
| Enumerations.UpperBitsLoop | ivl/elab_scope.cc:234-261 | the loop over the cut bits accepts exactly a repeated top bit, or zeros for an unsigned enumeration |
| Enumerations.ExplicitValue | ivl/elab_scope.cc:186-278 | no error exactly for accepted values, which come out at the width of the enumeration |
| Enumerations.Netenum.FindValue | ivl/netenum.cc:119-130 | finds a name with the value if there is one |
| Enumerations.ElaborateScopeEnumeration | ivl/elab_scope.cc:139-320 | reports no error exactly when every name is legal, and has then entered every name with its value; without values of their own and with names that are new, exactly when there is room to count them from 0, one-bit signed enumerations apart |
| ScopePaths.AllowedKeepsBounds | ivl/elab_scope.cc:1217-1258 | an instance the check allows keeps the bound on every module name and the generate blocks between equal names |
| ScopePaths.AllowedExactlyWhen | ivl/elab_scope.cc:1217-1258 | and refuses no instance that would keep them |
| ScopePaths.DepthBound | ivl/elab_scope.cc:1217-1258 | a path with at most limit + 1 of each module has at most (limit + 1) times the number of modules |
| Scopes.MayInstantiate | ivl/elab_scope.cc:1217-1258 | the walk up the parents allows an instance exactly when there are at most `limit` above and a generate block before each |
| Scopes.Design.ElaborateModule | ivl/elab_scope.cc:735-771 | every gate of the module gets its instances or a place on the work list, and the generate schemes their place; all scopes stay bounded and new work is of a lower level |
| Scopes.Design.ElaborateGate | ivl/elab_scope.cc:1205-1284 | an instance or a delayed array is made exactly when allowed, and else one error is counted |
| Scopes.Design.ElaborateInstances | ivl/elab_scope.cc:1290-1412 | every instance of the array gets its scope, numbered from the right bound towards the left one, with its own children seen to |
| Scopes.Design.Generate | ivl/elab_scope.cc:795-825 | every generate scheme makes every block scope it stands for, directly nested ones in the container |
| Scopes.Design.GenerateLoop | ivl/elab_scope.cc:827-936 | the loop over init, test and step makes one block scope for each turn, named by the value of its genvar in 32 bits, and stops at an expression that is no constant |
| Scopes.Design.GenerateCondit | ivl/elab_scope.cc:938-986 | the block when the condition is a constant with the truth value that the branch stands for |
| Scopes.Design.ChooseItem | ivl/elab_scope.cc:1004-1049 | the loops over items and their expressions pick the first item with a matching expression, else the last default, and nothing when a value met before a match is no constant |
| Scopes.Design.GenerateCase | ivl/elab_scope.cc:988-1083 | the block of that item, or its nested schemes in the container |
| ScopeTrees.TurnsDiffer | ivl/elab_scope.cc:862-911 | in a loop that ends no two turns have the same genvar value, so that no two blocks have one name |
| ScopeTrees.Int32Law | ivl/elab_scope.cc:859-922 | a genvar value is congruent to what the expression gave modulo 2^32, inside 32 bits, and that value itself when it is inside |
| ScopeLaws.LoopBlocks | ivl/elab_scope.cc:855-931 | a loop from `first` with test `v < end` and step `v + 1` has exactly the blocks with index first to end - 1 |
| ScopeLaws.OtherBlocks | ivl/elab_scope.cc:938-986 | the block of an if or else scheme that is not merely nested is there exactly when the condition is a constant other than 0, or 0; a named block always |
| ScopeLaws.ArrayInstances | ivl/elab_scope.cc:1290-1345 | an allowed instance array has exactly the instances with an index between its bounds, both included |
| ScopeTrees.TakesOne | ivl/elab_scope.cc:1004-1049 | a case takes at most one of its items |
| Scopes.Design.GenerateBlock | ivl/elab_scope.cc:1114-1173 | the block's scope, with the scopes of its nested schemes and gates below it |
| Scopes.Design.Process | ivl/elab_scope.cc:616-643 | a work item is done when it leaves the list, and only adds items of a lower level |
| Scopes.Design.Run | ivl/elaborate.cc:6682-6712 | the loop over the work list ends, within as many passes as the highest level, with nothing pending |
| Scopes.Design.Elaborate | ivl/elaborate.cc:6636-6712 | when every generate loop of a scope that is called for ends, so does elaboration, and the finished scopes are exactly the tree that the root modules call for; on every path each module occurs at most limit + 1 times, separated by generate blocks, and the depth is bounded; the passes are bounded by 2(limit + 1) times the modules plus 1 |
| ScopeTrees.InTheTree | ivl/elab_scope.cc:1205-1284 | the tree for given roots is unique |

## Left out

- Widths and counts are natural numbers: wrap-around of 32-bit `unsigned` widths and of `long` arithmetic is not modelled; `UINT_MAX` appears only as the marker that disables pruning, and bounds of `unsigned long` appear where a lemma needs them.
- The strict-width option is fixed to false, the integer width to 32 and the width cap to 65536, their defaults.
- Real, string, class, queue and dynamic-array operands, `$signed` and `$unsigned`, system functions, and the internal minimum, maximum and negated binary operators.
- Trimming of over-wide constant conditions before they are reduced.
- `eval_expr` folds exactly the trees that read no signal; the evaluators of single net nodes are not modelled one by one.
- LosslessIsExact: excludes unsigned subtraction, unary minus and division, whose exact values need not fit; left operands of shifts and powers that are neither literals nor plain operands nor LOSSLESS by their own test (SumUnderShiftIsNotExact); shifts of anything but a literal by a variable amount; and variable exponents that are signed or whose width was cut at an integer. For those that only need low bits, RingExact says when they are exact.
- AssignedBitsAreExact: assumes operands without x and z; what is left out is an expression with a variable shift amount whose width was cut below an operand wider than the target, where elaboration is handed an operand wider than its context, and expressions cut at the width cap.
- Agreement of valuations is asked on the nexuses that the rewritten netlist observes; a nexus that only a removed node read may change afterwards.
- Drive strengths and delays of replaced nodes, wired-and, wired-or and charge-storing nets, and real nets.
- The cache of guessed values in a nexus; the analysis is computed afresh.
- DriversConstant: substitutions are followed as deep as the node list is long; the source recurses without a bound on a cycle of substitutions.
- Cprop: the conditions are sufficient for a whole run. Where nothing else bears on the target of a rewrite, the condition for that rewrite is exact (RewriteExactness); a run in which an unsafe rewrite changes nothing that can be seen is equivalent all the same.
- Node names, line information, attributes and all messages; diagnostics are counts of errors.
- NetNet child and scope lists: scopes are linked by their parent pointers only, and nexuses by the nodes that name them.
- Selects with fewer indices than dimensions, variable bases, unresolved-wire driver checks, and the warnings about selects out of range.
- ElaborateScopeEnumeration: expects a width of at least 1; on an ascending base range the source accepts the range and then fails an assertion when it enters a name.
- Enumeration values given by '0 and '1 fills.
- Parameters holding strings, whose selects pad with nulls.
- Elaborate: expects every generate loop of a scope that is called for to end; the source goes round for ever in one that does not. The values of generate expressions and the bounds of instance arrays are given by the model's environment; whether the test of a loop is a constant does not change from turn to turn, as the source asserts.
- Loading further library modules while scopes are elaborated: the set of modules is fixed.
- Tasks, functions, named blocks, packages and nested modules, which add scopes but instantiate no module, and defparams, whose work items add none.
- Zero-width concatenations in string context, and concatenation operands wider than the address space.
