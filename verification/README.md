# Depthcharge: a verified model

Depthcharge is a bootloader. This project models the parts of it that carry real algorithms and proves, in Dafny,
what they promise: the Kconfig expression simplifier and menu builder, the flattened device tree and its overlays,
the TFTP client and the uIP TCP stack, the range lists with the two things built on them (the kernel's memory map and
the memory test), and the CRC-32.

`dafny verify dfyconfig.toml` checks everything.

| modules | what they cover |
|---|---|
| Common | bytes and the option type |
| KconfigExpr, KconfigTransform, KconfigEquality, KconfigSpine, KconfigJoin, KconfigTidy, KconfigDups, KconfigStrike | dependency expressions with the values n, m, y; negation normal form; striking out common factors; joins and contradictions on And/Or spines; the whole of expr_eliminate_dups; what these passes are sure to find |
| KconfigNesting, KconfigMenu, KconfigMenuFinalize, KconfigVisibility, KconfigSettled | when an entry is nested under another, menu_finalize on next/list/parent pointers, and what the finished menu looks like |
| FdtFormat, FdtRead, FdtWrite, FdtDecode, FdtRoundTrip, FdtExample | the flattened format (chapter 5 of the Devicetree Specification), parser, printer, that they undo each other, and one tree byte by byte |
| DtPhandles, DtFixups, DtReferences, DtCopy, DtPlaces, DtNames | the parts of applying an overlay: relocation, local fixups, the deep merge, places in a tree |
| DtOverlay, DtImport, DtApplies, DtSpelling | dt_apply_overlay as a whole, what the tree says at every path afterwards, when it succeeds, and the names it looks for |
| DtTreePhandles, DtNewNodes, DtUnique | the phandles of a tree, exactly which ones an overlay brings, and that they stay unique and bounded over any run of overlays |
| DtWholeReference | a reference inside an overlay, from its word to the node it finds in the tree |
| Tftp, TftpTransfer | the client, and whole transfers over a network that drops, duplicates and reorders |
| UipChecksum, UipTcp, UipDelivery, UipTable, UipTransitions, UipRuns | sequence arithmetic and the Internet checksum, one TCP connection step by step, in-order delivery, the connection table, opening and closing between two ends, and runs of the whole table |
| RangeSets, Ranges, FitMemory, FitReg, FitUpdate | sets of addresses as lists of edges, and update_memory on top of them |
| MemoryPlan, MemoryTest | the resumable memory test |
| Crc32 | the table-driven, word-at-a-time CRC |

Code that works in place is a class or a method with the same loops; each method's contract ties the new state to a
specification function, and the lemmas say what that function means. Code that computes by recursion is a function.

Where the code does not do what one would expect of it, the model follows the code, and a lemma says when exactly:

- A contradiction pass turns an `m` into `n` or `y`. Every rewrite is right exactly when the spine was not `m`
  (ContradictionExact, ContradictionInexact); so expr_eliminate_dups keeps every definite answer.
- The comparison with a constant goes wrong under a negation exactly when the operand is `m` (TransCompareNegation).
- A parent without a prompt counts as one whose prompt is always shown. Every later entry that mentions its symbol is
  nested under it (UnconditionalTest), and since it has no prompt text it hands them on to the list it is in. An entry
  can so end up below one whose test it did not pass and whose symbol it does not mention, and be shown while that
  symbol, its prompt and the symbol in between are all off (UnpromptedHop).
- dt_flatten never rewrites reserve_map_offset. The reader gets the map back exactly when the map's bytes stand where
  the field of the source header points (ReaderFindsMapIff): always when that is right behind the header, which for a
  tree read from a blob means that the map was its first block (MapFirstIff); never when it is at a later entry of a
  written map (MapReadFrom). For any other value of the field the outcome depends on the bytes found there.
- dt_flatten does not look at node->phandle and fdt_unflatten computes it from the properties, so the tree that comes
  back has every phandle recomputed; it is the same tree exactly when none was out of date (RecomputedIff).
- dt_adjust_all_phandles reports only errors of the root of the subtree (ErrorIffOwn, ChildErrorLost), and a phandle
  can wrap (AdjustExact, WrappedPhandle).
- A node of an overlay that is merged into an existing node loses its phandle; references to it then lead nowhere
  (ReferenceAfterImport, ReferenceAfterOverlay).
- If the symbols of an overlay have an __overlay__ child, that is imported once as a fragment and once more with the
  symbols, and its phandles can end up in the tree twice (SymbolsTwice; SymbolsIff says exactly when).
- A TFTP data packet is taken exactly when its number is the awaited one modulo 65536 (AcceptedIff of TftpTransfer).
- A connection stopped in TIME_WAIT or FIN_WAIT_2 never times out (StoppedStays).
- ranges_set_region_to only asserts start != end; a region given backwards keeps the list in order exactly when it
  changes nothing (BackwardsRegion).
- A RAM range that cannot be rounded is not conserved (SmallRamRange). Inside one megabyte it reserves the whole
  megabyte and ranges_for_each reports it with its start behind its end (SmallRamBackwards); in the last megabyte of the
  address space its start becomes 0 (LastMegabyte).
- count_entries counts nothing when its rounding wraps at 2^64 (CountExact).

## Model

| member | source | states |
|---|---|---|
| KconfigExpr.AssignmentIsSensible | util/kconfig/symbol.c:14-30 | the assumptions on assignments (constants have their own values and spellings, booleans are never m) are met by every choice of values for the boolean and tristate symbols |
| KconfigExpr.EliminateYNEquivalent | util/kconfig/expr.c:231-312 | dropping y and n from sums and products changes the value on no assignment, m included |
| KconfigExpr.EliminateYNShrinks | util/kconfig/expr.c:231-312 | one pass leaves no constant operand, and the tree shrinks exactly if it had one |
| KconfigTransform.TransformEquivalent | util/kconfig/expr.c:636-771 | expr_transform keeps the value on every assignment; its recursion through re-transformed De Morgan results ends by a weight that doubles under Not |
| KconfigTransform.Transform | util/kconfig/expr.c:636-771 | the result is never heavier than the input, which is what makes the repeated transformation end |
| KconfigTransform.TransformNNF | util/kconfig/expr.c:698-766 | negation stands only above symbols other than y, m, n, and no boolean is compared with one of the three |
| KconfigTransform.TransformFixed | util/kconfig/expr.c:636-771 | the normal forms are exactly the trees expr_transform leaves alone |
| KconfigEquality.EliminatePairsSplits | util/kconfig/expr.c:130-162 | striking out pairs of equal leaves only splits off a common operand c: a = c op a', b = c op b' |
| KconfigEquality.EliminateEqSplits | util/kconfig/expr.c:164-184 | so do both stages of expr_eliminate_eq, one per operator |
| KconfigEquality.EliminateEqOrder | util/kconfig/expr.c:164-184 | if what is left of a is at most what is left of b, then a is at most b |
| KconfigEquality.ExprEqSound | util/kconfig/expr.c:189-229 | expressions that expr_eq calls equal have the same value on every assignment, m included |
| KconfigEquality.ExprEqIncomplete | util/kconfig/expr.c:189-229 | the converse fails: FOO && FOO against FOO |
| KconfigEquality.ExtractEqSplits | util/kconfig/expr.c:826-875 | the extracted part is the common operand itself |
| KconfigJoin.JoinValue | util/kconfig/expr.c:346-502 | every join of two operands is exact on n, m and y |
| KconfigJoin.JoinShape | util/kconfig/expr.c:346-502 | a join gives a leaf again, no larger than the first operand |
| KconfigJoin.ContradictsValue | util/kconfig/expr.c:574-603 | when the contradiction test succeeds, the second operand lies beyond the negation of the first |
| KconfigJoin.ContradictionExact | util/kconfig/expr.c:574-603 | replacing the first operand by the absorbing constant is right if and only if the spine is not m |
| KconfigJoin.ContradictionInexact | util/kconfig/expr.c:577-585 | (FOO or BAR) and not FOO and not BAR, at FOO=m and BAR=n, is m and becomes n |
| KconfigTidy.JoinIff | util/kconfig/expr.c:346-502 | two operands are joined if and only if expr_eq calls them equal or their shapes are in the rule table: a boolean and its negation in a sum, a tristate compared with two of y, m, n, and so on |
| KconfigTidy.JoinedTidy | util/kconfig/expr.c:504-554 | so where nothing can be joined no sum or product holds the same symbol, comparison or negated symbol twice, nor two operands that the table merges |
| KconfigTidy.OpposedContradicts | util/kconfig/expr.c:574-603 | the contradiction test finds every sum of different literals beside the complements of all of them, in any order and nesting, and the other way round |
| KconfigTidy.NoContradictionConsistent | util/kconfig/expr.c:556-610 | so none of these is left |
| KconfigStrike.SameLiteralsEqual | util/kconfig/expr.c:189-229 | expr_eq calls two sums, or two products, of the same different literals equal, whatever their order and nesting |
| KconfigStrike.StruckOut | util/kconfig/expr.c:130-162 | nothing is left of a sum or product of different literals that are all operands of the other |
| KconfigDups.Dups1 | util/kconfig/expr.c:504-554 | the join pass over all ordered pairs of slots is exact on all three values; if it counts no rewrite it changed nothing and no pair can be joined, otherwise a constant is left to drop |
| KconfigDups.Dups2 | util/kconfig/expr.c:556-610 | the contradiction pass keeps every definite answer; if it counts no rewrite it changed nothing and no operand contradicts its spine |
| KconfigDups.Dups2Slot | util/kconfig/expr.c:574-606 | the same for one slot against the rest of the spine, including the nested pass over the slot itself |
| KconfigDups.EliminateDups | util/kconfig/expr.c:612-634 | expr_eliminate_dups refines its input in Kleene's information order, is exact on all values unless a contradiction was struck out, leaves no operand repeated, mergeable or opposed (KconfigTidy), and ends because each counted pass shrinks the tree |
| KconfigDups.RefinementExactOnDefinite | util/kconfig/expr.c:612-634 | hence it is exact on every y/n assignment |
| KconfigNesting.TransCompareValue | util/kconfig/expr.c:877-936 | the comparison with y or n has the truth value it is meant to have, on every assignment, m included, where symbols that stand alone read like their tristate values and no operand of a negation is m |
| KconfigNesting.DefiniteComparable | util/kconfig/expr.c:877-936 | so it has on every y/n assignment, if only boolean and tristate symbols stand alone |
| KconfigNesting.TransCompareNegation | util/kconfig/expr.c:906-909 | below a negation, of whatever expression, it is right if and only if the operand is not m |
| KconfigNesting.DependsMeansOn | util/kconfig/expr.c:797-824 | an expression that depends on a symbol is non-n only while the symbol is set |
| KconfigNesting.OnLogical | util/kconfig/expr.c:797-824 | for boolean and tristate symbols "set" means a value other than n |
| KconfigNesting.NotContained | util/kconfig/expr.c:773-795 | an expression that does not contain a symbol has the same value whatever the symbol is |
| KconfigNesting.ContainsIff | util/kconfig/expr.c:773-795 | it contains exactly the symbols whose renaming changes it |
| KconfigNesting.DependsIff | util/kconfig/expr.c:797-824 | it depends on a symbol if and only if an operand of the product that it is demands it: the symbol itself, its comparison with y or m, or its difference from n |
| KconfigNesting.Normalise | util/kconfig/menu.c:342-344 | the simplified condition says, wherever the comparison is right, whether the condition is non-n; a missing condition simplifies to y |
| KconfigNesting.Nests | util/kconfig/menu.c:341-361 | the exact outcome of the nesting test on the simplified conditions; when it passes, the entry's condition mentions the parent's symbol and, if the parent has a prompt or the entry depends on that symbol, is met only while the symbol is set or the prompt is shown |
| KconfigNesting.OutcomeImplied | util/kconfig/menu.c:346-361 | the same for whatever simplified forms of the two conditions the test is made on |
| KconfigNesting.UnconditionalTest | util/kconfig/menu.c:342-361 | for a parent without a prompt, or with one that has no condition, the test passes if and only if the entry mentions its symbol |
| KconfigStrike.PassesByLiterals | util/kconfig/menu.c:346-361 | an entry that mentions the parent's symbol passes if its condition is a product with every literal of the parent's condition |
| KconfigVisibility.FinishedPlaces | util/kconfig/menu.c:282-425 | in the whole finished menu every entry is reached from its parent by a way of which each step leads to an entry that the parser put there or that passed the test, with what Nests says of it, and whose entries in between all lack a prompt text |
| KconfigVisibility.DirectPlace | util/kconfig/menu.c:346-366 | a step from an entry with a prompt text leads to an entry that the parser put below it, or whose condition is met only while its symbol is set or its prompt shown |
| KconfigVisibility.UnpromptedHop | util/kconfig/menu.c:342-424 | a step from an entry without a prompt does not: three entries of which the last ends up below the first without mentioning its symbol |
| KconfigSettled.LoopEnds | util/kconfig/menu.c:341-371 | a childless entry with a symbol leaves no sibling behind it, or one that fails its test; any other entry leaves all of its siblings |
| KconfigSettled.SettledMenu | util/kconfig/menu.c:282-425 | in the whole finished menu no sibling that passes the test of a childless entry with a symbol stands behind it, unless that entry has no prompt text or was handed on by one that has none |
| KconfigSettled.HandedNeighbour | util/kconfig/menu.c:415-424 | an entry that was handed on stands in front of a sibling that passes its test |
| KconfigVisibility.ParentEdges | util/kconfig/menu.c:282-425 | these places are what the parent links say |
| KconfigVisibility.FinalizeUnder | util/kconfig/menu.c:282-425 | any relation that holds between the parsed entries, for every passed test, and across menus without a prompt text, holds between each finished entry and its parent |
| KconfigMenu.FinalizePreorder | util/kconfig/menu.c:282-425 | finalising an entry keeps the preorder sequence of it and its later siblings |
| KconfigMenu.StealPreorder | util/kconfig/menu.c:346-371 | nesting keeps the preorder sequence |
| KconfigMenu.HoistPreorder | util/kconfig/menu.c:415-424 | flattening menus without a prompt text keeps it too |
| KconfigMenu.StealTaken | util/kconfig/menu.c:346-366 | exactly a front part of the siblings is taken over: each one taken passed the test, the first one left did not |
| KconfigMenu.FinalizeFlat | util/kconfig/menu.c:375-425 | below a finished entry no menu without a prompt text has entries of its own |
| KconfigMenu.SameOrder | util/kconfig/menu.c:282-425 | trees with the same preorder sequence hold the same entries, and one repeats an entry only if the other does |
| KconfigMenuFinalize.MenuTable.MenuFinalize | util/kconfig/menu.c:282-425 | on the pointers themselves: the links afterwards stand for exactly the finalised tree, every parent link agrees with the list that holds the entry, nothing else changed, and the order in which entries were finalised is the preorder of the finished tree, in which no entry repeats |
| KconfigMenuFinalize.MenuTable.FinalizeKids | util/kconfig/menu.c:339-340 | the loop over the children, although the list changes under it |
| KconfigMenuFinalize.MenuTable.StealSiblings | util/kconfig/menu.c:345-371 | the loop that takes over later siblings and the relinking after it |
| KconfigMenuFinalize.MenuTable.StealOne | util/kconfig/menu.c:363-365 | one sibling is finalised and gets its new parent |
| KconfigMenuFinalize.MenuTable.TakeList | util/kconfig/menu.c:367-371 | the taken siblings leave one list and become another |
| KconfigMenuFinalize.MenuTable.HoistKids | util/kconfig/menu.c:375-425 | the hoisting loop, which also visits the entries it has just hoisted |
| KconfigMenuFinalize.MenuTable.HoistOne | util/kconfig/menu.c:415-424 | one menu's entries are spliced in behind it and get the menu's parent |
| FdtRead.FdtSkipNode | src/base/device_tree.c:153-171 | the loops compute the recursive reader's size of the node |
| FdtRead.FdtUnflattenNode | src/base/device_tree.c:208-253 | the loops compute the recursive reader's node, size and highest phandle |
| FdtRead.FdtUnflattenProperties | src/base/device_tree.c:225-241 | its property loop, with the phandle and the maximum it tracks |
| FdtRead.FdtUnflattenChildren | src/base/device_tree.c:243-250 | its loop over the children |
| FdtRead.FdtUnflatten | src/base/device_tree.c:273-321 | the whole parser with its magic and version checks and the reserve-map loop |
| FdtWrite.FlatNodeSize | src/base/device_tree.c:329-363 | the two counters grow by exactly the node's sizes, modulo 2^32 |
| FdtWrite.DtFlatSize | src/base/device_tree.c:365-384 | dt_flat_size is the size of the format, modulo 2^32 |
| FdtWrite.FlattenProperty | src/base/device_tree.c:400-424 | both cursors move by the property's sizes, the property stands in the blob, nothing else is written |
| FdtWrite.FlattenNode | src/base/device_tree.c:426-453 | both cursors end exactly where the sizes say, the node stands in the blob with its whole subtree, nothing else is written |
| FdtWrite.FlattenChildren | src/base/device_tree.c:444-450 | the same for the loop over the children |
| FdtWrite.FlattenMap | src/base/device_tree.c:463-467 | the reserve map and its end marker |
| FdtDecode.PropertyRead | src/base/device_tree.c:34-56 | fdt_next_property reads back a written property with its name and size |
| FdtDecode.NodeRoundTrip | src/base/device_tree.c:208-253 | reading a written node gives the same name, properties, children and order, every phandle recomputed from the properties whatever the node's field held, and its size |
| FdtDecode.ChildrenRoundTrip | src/base/device_tree.c:243-250 | the same for a list of children |
| FdtDecode.NodeSkipped | src/base/device_tree.c:153-171 | fdt_skip_node returns exactly the flattened length of the node |
| FdtDecode.MapRoundTrip | src/base/device_tree.c:255-271 | the reserve map reads back entry by entry |
| FdtRoundTrip.DtFlatten | src/base/device_tree.c:455-490 | writes exactly dt_flat_size bytes, that size as totalsize, and each block where the header says; structure and strings end at the ends of their blocks |
| FdtRoundTrip.FlattenUnflatten | src/base/device_tree.c:273-321 | unflattening a flattened tree gives the same header, reserve map and tree, with all phandles and max_phandle recomputed from the properties; needs reserve_map_offset to point behind the header |
| FdtFormat.RecomputedIff | src/base/device_tree.c:225-241 | recomputing changes the tree if and only if some node's phandle is not that of its last phandle property |
| FdtRoundTrip.SkipRoot | src/base/device_tree.c:153-171 | skipping the root measures the structure block, which ends with its END token right there |
| FdtRoundTrip.ReaderFindsMapIff | src/base/device_tree.c:255-271 | reading the flattened blob gives the reserve map if and only if its entries and an end marker stand where the source header's field points |
| FdtRoundTrip.MapFirstIff | src/base/device_tree.c:297-305 | for a tree read from a blob the field points right behind the header if and only if the reserve map was the first block |
| FdtRoundTrip.MapReadFrom | src/base/device_tree.c:255-271 | with the field at the k-th written entry the reader gets the map without its first k entries, so the whole map if and only if k is 0 |
| FdtExample.SmallTreeBytes | src/base/device_tree.c:400-490 | the bytes of one small flattened tree, token by token |
| FdtExample.MagicBytes | src/base/device_tree.c:276-284 | a blob is refused if and only if it does not start with d0 0d fe ed or is not compatible with version 17 |
| DtPhandles.DtAdjustAllPhandles | src/base/device_tree.c:1126-1147 | the loops compute the recursive specification, early return included |
| DtPhandles.AdjustAllShifts | src/base/device_tree.c:1126-1147 | when every phandle is usable and stays in range, all move up by base and the largest is returned |
| DtPhandles.AdjustExact | src/base/device_tree.c:1098-1116 | one phandle moves up by base if and only if it is usable and the sum is in range |
| DtPhandles.WrappedPhandle | src/base/device_tree.c:1098-1116 | an input whose phandle wraps to 1 without an error |
| DtPhandles.ErrorIffOwn | src/base/device_tree.c:1126-1147 | an error is reported if and only if some phandle property of the root of the subtree holds a reserved value, too few bytes, or a word whose sum is reserved |
| DtPhandles.ChildErrorLost | src/base/device_tree.c:1140-1144 | a tree whose child has phandle 0 is reported as relocated, and the child keeps it |
| DtFixups.DtFixupLocals | src/base/device_tree.c:1158-1209 | the loops over fixup properties and children compute the recursive specification |
| DtFixups.AdjustSlotsLoop | src/base/device_tree.c:1184-1187 | the innermost loop over the offsets of one fixup property |
| DtFixups.AdjustSlotsMoves | src/base/device_tree.c:1184-1187 | every listed word moves up by base, words that touch none of them stay |
| DtReferences.FixupLookup | src/base/device_tree.c:1158-1209 | after the fixups every listed property is changed slot by slot, every other property is as before |
| DtReferences.ShiftFind | src/base/device_tree.c:687-704 | a phandle and its relocated value find the same node before and after relocation |
| DtReferences.ShiftLookup | src/base/device_tree.c:1126-1147 | relocation changes no property but the phandles |
| DtReferences.ReferenceKept | src/base/device_tree.c:1481-1497 | a word that /__local_fixups__ lists once names the same overlay node after relocation as before, whatever the other listed words are |
| DtCopy.DtCopySubtree | src/base/device_tree.c:1354-1406 | the loops compute the recursive merge |
| DtCopy.DeepMerge | src/base/device_tree.c:1354-1406 | looking up any path and property after the merge gives the source's value where the source decides and the destination's otherwise |
| DtCopy.MergedNodes | src/base/device_tree.c:1354-1406 | a node is there after the merge if and only if one of the trees had it |
| DtCopy.CopyUnique | src/base/device_tree.c:1354-1406 | sibling names and property names stay distinct |
| DtCopy.CopyOrder | src/base/device_tree.c:1386-1403 | children keep their order and each new one goes in front of all before it |
| DtCopy.CopyPropertyOrder | src/base/device_tree.c:1358-1383 | and so do properties |
| DtOverlay.TargetMeans | src/base/device_tree.c:1431-1455 | the target is a node with the phandle, or the node at the path, if there is one; target has priority, and one of a wrong size is an error |
| DtOverlay.LastDataIs | src/base/device_tree.c:1434-1443 | of several properties called target-path the last one counts |
| DtPlaces.FindFirst | src/base/device_tree.c:687-704 | dt_find_node_by_phandle finds the first node with the phandle on a walk from the root |
| DtPlaces.CopyAtFind | src/base/device_tree.c:1457-1457 | after a merge at a place, below it stands the merged subtree and every node elsewhere is as before |
| DtImport.ImportMeans | src/base/device_tree.c:1417-1459 | without an __overlay__ child nothing happens, without a target it is an error, otherwise lookups below the target follow the merge and every other path keeps its value |
| DtImport.ImportAllMeans | src/base/device_tree.c:1517-1523 | after all fragments a property has the value of the last fragment that says anything about it, or else the one it had |
| DtImport.SymbolsMean | src/base/device_tree.c:1525-1541 | below /__symbols__ the tree's own symbols win over the overlay's, nothing else changes |
| DtImport.ApplyMeans | src/base/device_tree.c:1471-1544 | so for the whole overlay, relocated, fixed up and imported (DtApplyOverlay, from the flattened overlay on): what every path of the tree says afterwards |
| DtApplies.FixupIff | src/base/device_tree.c:1158-1209 | dt_fixup_locals succeeds if and only if every listed node and property exists, every list has whole words, and each leads to a usable word |
| DtApplies.SlotsIff | src/base/device_tree.c:1098-1116 | for listed words that do not overlap: if and only if each is usable as it stands |
| DtApplies.ImportsIff | src/base/device_tree.c:1517-1523 | the fragments are imported if and only if each one with an __overlay__ finds its target in the tree that those before it have left |
| DtApplies.AppliesIff | src/base/device_tree.c:1471-1544 | an overlay applies if and only if its root has no reserved phandle, its local fixups succeed, it has no external fixups or the tree has symbols and they succeed, and every fragment finds its target |
| DtApplies.PreparedExternal | src/base/device_tree.c:1510-1515 | with external fixups, what is imported is their result on the relocated overlay |
| DtApplies.PreparedSymbols | src/base/device_tree.c:1417-1515 | with symbols and a fragment placed by path, what is imported has its symbol paths decided outside the model |
| DtApplies.PreparedAsIs | src/base/device_tree.c:1417-1515 | without external fixups, and without symbols or target paths, it is the relocated overlay itself |
| DtSpelling.IllegalNames | src/base/device_tree.c:1359-1360 | exactly properties called phandle, linux,phandle or name are never copied onto a node that exists |
| DtSpelling.OverlayNames | src/base/device_tree.c:1421-1512 | the names are spelt as in the source |
| DtImport.ReferenceAfterImport | src/base/device_tree.c:1386-1403 | the phandle of an imported node finds that node in the merged tree if and only if the tree had no node there before |
| DtOverlay.DtImportAll | src/base/device_tree.c:1517-1523 | the loop over the fragments computes the recursion that ImportAllMeans explains, and stops at the first error |
| DtNewNodes.CopyExact | src/base/device_tree.c:1354-1406 | a merge adds to the phandles of the destination exactly those of the nodes that are new to it |
| DtNewNodes.NewAtPath | src/base/device_tree.c:1386-1403 | a node of the source is one of these if and only if the destination has no node at its path |
| DtNewNodes.ApplyExact | src/base/device_tree.c:1471-1544 | the phandles after a whole overlay: the tree's, those of the nodes new when their fragment was imported, and those that are new with the symbols |
| DtTreePhandles.UnflattenBounded | src/base/device_tree.c:225-241 | for every blob, the max_phandle that fdt_unflatten computes bounds every phandle of the tree it makes |
| DtTreePhandles.UnflattenPhandleOk | src/base/device_tree.c:225-241 | and every node has the phandle of its last phandle property, when those hold whole words |
| DtTreePhandles.ShiftPhandles | src/base/device_tree.c:1126-1147 | relocation moves the phandles of a tree up by base, with their numbers of occurrences |
| DtUnique.OverlayKeepsPhandles | src/base/device_tree.c:1471-1544 | after a successful overlay max_phandle bounds every phandle and none occurs twice |
| DtUnique.GoodIff | src/base/device_tree.c:1471-1544 | for any overlay whose phandles fit, max_phandle bounds the phandles afterwards, and they are unique if and only if no node is new both with its fragment and with the symbols |
| DtUnique.SymbolsIff | src/base/device_tree.c:1517-1541 | with an __overlay__ child in the overlay's symbols that means: each of its nodes with a phandle meets a node at its target, or in the symbols that the tree already had |
| DtUnique.SymbolsTwice | src/base/device_tree.c:1517-1541 | an overlay that brings phandle 2 into the tree twice |
| DtUnique.OverlaysKeepPhandles | src/base/device_tree.c:1471-1544 | and so over every sequence of flattened overlays |
| DtWholeReference.NodeAfterOverlay | src/base/device_tree.c:1517-1541 | after a whole overlay the phandle of one of its nodes finds a node in the tree if and only if that node was new at its place when its fragment was imported |
| DtWholeReference.ReferenceAfterOverlay | src/base/device_tree.c:1471-1544 | and so does every word of the overlay that the local fixups list once and that names such a node |
| DtUnique.RunKeepsPhandles | src/base/device_tree.c:273-321 | from any blob whose tree has distinct phandles on |
| Tftp.Client.Callback | src/netboot/tftp.c:99-184 | the callback does to buffer, counters and status exactly what the packet specification says, and writes nothing behind its cursor |
| Tftp.StrangersIgnored | src/netboot/tftp.c:107-112 | once a port is bound, packets from other ports are not looked at |
| Tftp.PacketKinds | src/netboot/tftp.c:99-184 | what each kind of packet does, by its bytes: errors, data of the awaited or another number, too long, too short, without room |
| Tftp.Client.StoreBlock | src/netboot/tftp.c:155-183 | a block that fits goes to the end of the received bytes; full blocks are acknowledged, a short one ends the transfer |
| Tftp.Client.PollOnce | src/netboot/tftp.c:230-250 | one turn of the loop, with its retransmission and the unbinding of the server port |
| Tftp.Client.Read | src/netboot/tftp.c:219-250 | the loop over any sequence of polls |
| Tftp.RunValid | src/netboot/tftp.c:99-265 | every run keeps the received bytes within the buffer, and all blocks before the current one were full |
| TftpTransfer.TransferCorrect | src/netboot/tftp.c:99-265 | every run with a lock-step server and a lossy, duplicating, reordering network: pending means the first 512*(blocknum-1) bytes, success the whole file and its length, and failure exactly that an error packet was let through to the waiting client or the awaited block did not fit, which happens only to files that are too large |
| TftpTransfer.RunGood | src/netboot/tftp.c:99-265 | the server is never more than one block ahead of the client |
| TftpTransfer.RunSends | src/netboot/tftp.c:168-177 | in every run the client has sent the request and acknowledged every block before the current one, and nothing else |
| TftpTransfer.AckPacketNumber | src/netboot/tftp.c:168-173 | an acknowledgement carries the low 16 bits of the block number |
| TftpTransfer.CanFinish | src/netboot/tftp.c:219-250 | from every state a run reaches, a file that fits can still be delivered |
| TftpTransfer.AcceptedIff | src/netboot/tftp.c:136-139 | a data packet is stored if and only if it is a multiple of 65536 blocks old |
| UipChecksum.UipAdd32 | src/net/uip.c:202-226 | the byte-by-byte addition with its carries is addition modulo 2^32 |
| UipChecksum.Chksum | src/net/uip.c:233-261 | the running sum with end-around carry is the one's-complement residue of the word sum |
| UipChecksum.WordSumSplit | src/net/uip.c:282-301 | the sum may be cut at any even offset |
| UipChecksum.ResidueChain | src/net/uip.c:233-261 | and continued from its own result |
| UipChecksum.ResidueMeaning | src/net/uip.c:233-261 | it is congruent to the word sum modulo 65535, and zero only for zero |
| UipChecksum.WordSumZero | src/net/uip.c:233-261 | the word sum is zero if and only if every byte is |
| UipChecksum.UipIpChksum | src/net/uip.c:271-278 | the header checksum never reports 0 |
| UipChecksum.UpperLayerChksum | src/net/uip.c:282-301 | pseudo header and segment, of even or odd length, summed in one |
| UipChecksum.EmittedPasses | src/net/uip.c:1655-1667 | a packet whose field was set to ~sum passes the receiver's test, for any contents and length |
| UipChecksum.AcceptedIff | src/net/uip.c:834-835 | and a received packet passes if and only if its words add up to 0 modulo 65535 |
| UipTcp.GoodKept | src/net/uip.c:1248-1606 | for applications that stop only in ESTABLISHED, every step keeps: SYN_SENT, SYN_RCVD, FIN_WAIT_1, CLOSING and LAST_ACK have len > 0, and nrtx stays within its limit |
| UipTcp.SendSide | src/net/uip.c:1248-1283 | the sequence number of what is in flight moves only when that is acknowledged, and exactly past it; until then, in the same state, what is in flight stays |
| UipTcp.BackoffShifts | src/net/uip.c:684-687 | the retransmission timer is RTO shifted left by nrtx, at most by 4 |
| UipTcp.TimerCountsDown | src/net/uip.c:653-731 | each timer call brings the end of a silent connection exactly one call nearer |
| UipTcp.SilentPeerBounded | src/net/uip.c:632-732 | it stays as it is for one call less than the deadline and is CLOSED after exactly that many |
| UipTcp.DeadlinePositive | src/net/uip.c:653-687 | the deadline is at most 256 calls for TIME_WAIT and FIN_WAIT_2, and at most timer + 1 plus the backed-off retries up to MAXRTX otherwise |
| UipTcp.StoppedStays | src/net/uip.c:653-658 | a connection in TIME_WAIT or FIN_WAIT_2 is stuck if and only if it is stopped |
| UipDelivery.InputInOrder | src/net/uip.c:1204-1606 | any segment of the peer, old or new, keeps: what was handed over is a prefix of the stream, and rcv_nxt is right behind it |
| UipDelivery.StepInOrder | src/net/uip.c:605-1606 | so does every step |
| UipDelivery.InOrderDelivery | src/net/uip.c:605-1606 | so in every run the payloads handed over concatenate to a prefix of the peer's stream, and a FIN is taken only at its end |
| UipTable.StepKey | src/net/uip.c:605-1606 | no step changes a connection's ports and address or revives a closed one |
| UipTable.Stack.PortInUse | src/net/uip.c:349-355 | whether some connection in use has the port |
| UipTable.Stack.ChoosePort | src/net/uip.c:339-355 | the search ends, by pigeonhole over the ports 4096 to 31999, at a port no connection in use has |
| UipTable.Stack.ChooseSlot | src/net/uip.c:357-374 | the first closed slot, or else the first of those longest in TIME_WAIT, or none if there is neither |
| UipTable.BestUnique | src/net/uip.c:1104-1117 | that choice is determined |
| UipTable.Stack.Connect | src/net/uip.c:335-396 | an active open is exactly one call of the run theorem: a free or timed-out slot is opened at a port no connection in use has, or nothing changes; (lport, rport, ripaddr) stays unique |
| UipTable.Stack.Periodic | src/net/uip.c:632-732 | a timer call changes one connection and the initial sequence number, and keeps uniqueness |
| UipTable.Stack.PollConnection | src/net/uip.c:617-629 | a poll changes one connection |
| UipTable.Stack.Demultiplex | src/net/uip.c:1013-1021 | finds the connection in use with the segment's ports and address if there is one |
| UipTable.Stack.Receive | src/net/uip.c:1013-1160 | input goes to the one connection it matches, or a SYN to a listening port opens one in a free or timed-out slot, or nothing changes; uniqueness is kept |
| UipTable.UniqueAfter | src/net/uip.c:335-1606 | each of these calls keeps ports and address unique |
| UipTable.FreshGood | src/net/uip.c:376-393 | connections opened actively or passively start with their SYN outstanding and within the retransmission limit, whatever the slot held before |
| UipTable.OpenedInOrder | src/net/uip.c:1138-1160 | a passive open starts in step with its peer |
| UipTransitions.Handshake | src/net/uip.c:1293-1376 | SYN, SYN and ACK, ACK between two ends: both are established, with nothing outstanding, and each expects the byte behind the other's SYN |
| UipTransitions.EstablishedIff | src/net/uip.c:1318-1376 | an active open succeeds exactly by the SYN and ACK, without any other flag, that acknowledges its SYN |
| UipTransitions.AllTaken | src/net/uip.c:1378-1500 | every payload of a stream that arrives in order is handed over |
| UipTransitions.FinTaken | src/net/uip.c:1390-1423 | a FIN with the last data leads to LAST_ACK and both are taken, unless own data is outstanding |
| UipTransitions.OrderlyClose | src/net/uip.c:1390-1575 | one end closes and the other answers: TIME_WAIT here, CLOSED there |
| UipTransitions.HalfClose | src/net/uip.c:1547-1592 | FIN_WAIT_1, FIN_WAIT_2, TIME_WAIT |
| UipTransitions.LateData | src/net/uip.c:1547-1592 | after its own FIN a connection acknowledges what arrives and hands nothing over |
| UipTransitions.SimultaneousClose | src/net/uip.c:1547-1606 | FIN_WAIT_1, CLOSING, TIME_WAIT |
| UipTransitions.ResetCloses | src/net/uip.c:1211-1217 | a reset closes in every state, and the slot is free |
| UipTransitions.WindowTaken | src/net/uip.c:1430-1442 | the peer's window limits the segment size, unless it is 0 or above the first one |
| UipTransitions.EstimateTaken | src/net/uip.c:1248-1283 | an acknowledgement of something sent only once sets the new estimate, and the timer starts anew |
| UipRuns.TurnSound | src/net/uip.c:335-1606 | every call keeps: unique ports and address, every slot well-formed, and what each connection handed over a prefix of the stream of its own peer, whatever the slot held before |
| UipRuns.RunSound | src/net/uip.c:335-1606 | so does every run of opens, timer calls, polls and segments, over any reuse of slots |
| UipRuns.SameConnection | src/net/uip.c:605-1606 | until its slot is opened anew a connection keeps its peer and what it handed over |
| UipRuns.InitiallySound | src/net/uip.c:339-374 | a table of closed slots is a start of such a run |
| RangeSets.SetRegionMember | src/base/ranges.c:60-107 | inside [start, end) membership becomes what was asked for, outside it stays |
| RangeSets.SetRegionCanonical | src/base/ranges.c:60-107 | the list stays strictly increasing and of even length |
| RangeSets.BackwardsRegion | src/base/ranges.c:60-107 | a region with end < start keeps the order if and only if it changes nothing |
| RangeSets.CanonicalForm | src/base/ranges.c:24-28 | equal sets have equal lists |
| RangeSets.IntervalsSeparated | src/base/ranges.c:122-132 | the reported ranges are non-empty, in order, and never touch |
| RangeSets.IntervalsMember | src/base/ranges.c:122-132 | they cover exactly the set |
| Ranges.RangeList.InsertBetween | src/base/ranges.c:30-40 | links one edge into the list, all others stay in place |
| Ranges.RangeList.Unlink | src/base/ranges.c:98-100 | takes one edge out |
| Ranges.RangeList.FindStart | src/base/ranges.c:69-82 | stops behind the edges below start, knowing whether the addresses there are in the set |
| Ranges.RangeList.DeleteObscured | src/base/ranges.c:90-106 | removes what the region obscures and adds the end edge if needed |
| Ranges.RangeList.SetRegionTo | src/base/ranges.c:60-107 | the linked list afterwards holds exactly the specified edges |
| Ranges.RangeList.Add | src/base/ranges.c:110-113 | exactly the union with [start, end) |
| Ranges.RangeList.Sub | src/base/ranges.c:116-119 | exactly the set without [start, end) |
| Ranges.RangeList.ForEach | src/base/ranges.c:122-132 | the calls made are the intervals of the list, and an odd edge is reported |
| Ranges.RunMeans | src/base/ranges.c:60-119 | after any run of adds and subs an address is in the set as the last update covering it said |
| Ranges.RunsAgree | src/base/ranges.c:60-119 | two runs that mean the same set leave the same list |
| Ranges.RunReports | src/base/ranges.c:122-132 | and for_each reports its maximal ranges in order |
| FitMemory.SplitRange | src/boot/fit.c:459-483 | one memory range is trimmed to megabytes, its padding reserved |
| FitMemory.SplitMemory | src/boot/fit.c:455-484 | the loop over all memory ranges |
| FitMemory.MemoryConserved | src/boot/fit.c:455-484 | mem and reserved together are exactly the inputs, disjoint if the inputs are, and mem is the aligned part of the RAM |
| FitMemory.SmallRamRange | src/boot/fit.c:469-480 | one RAM range alone is conserved if and only if its start can be rounded up and is then not behind its rounded end |
| FitMemory.SmallRamBackwards | src/boot/fit.c:469-480 | alone and inside one megabyte, reserved is the whole megabyte, and mem reports one range from its upper to its lower bound |
| FitMemory.LastMegabyte | src/boot/fit.c:469-480 | alone and in the last megabyte of the address space, its start is rounded to 0 and mem reports everything below |
| FitMemory.MemAligned | src/boot/fit.c:464-477 | every edge of mem is a multiple of 1 MiB |
| FitMemory.Megabytes | src/boot/fit.c:469-472 | the bounds of mem are the nearest multiples of 1 MiB inside the range |
| FitReg.EntriesTile | src/boot/fit.c:415-433 | the entries written for separate ranges cover exactly those ranges, each address once, in order, each of limited size |
| FitReg.ChunkCount | src/boot/fit.c:406-413 | how many entries one range needs |
| FitReg.ChunkSizes | src/boot/fit.c:415-433 | all entries of a range but the last have the full size |
| FitReg.CountExact | src/boot/fit.c:406-413 | count_entries counts that many if and only if its rounding does not wrap at 2^64 |
| FitReg.WriteInt | src/base/device_tree.c:861-867 | the low bytes of the number, most significant first, and nothing else |
| FitReg.EntryParams.UpdateMemProperty | src/boot/fit.c:415-433 | appends the entries of one range at the write cursor |
| FitReg.RegReadsBack | src/boot/fit.c:415-433 | the cells read back as the entries written if and only if every address and size fits its cells |
| FitUpdate.CountEntries | src/boot/fit.c:489-492 | the 32-bit count is the number of entries |
| FitUpdate.FillReg | src/boot/fit.c:489-502 | exactly the counted length is written |
| FitUpdate.UpdateMemory | src/boot/fit.c:455-502 | from the memory ranges to the bytes of the property |
| FitUpdate.RegDescribesMemory | src/boot/fit.c:435-503 | read back, the property tiles exactly the aligned RAM: ascending, without gap or overlap, each size fitting its cells |
| MemoryPlan.ChunksCut | src/diag/memory.c:138-146 | the chunks hold exactly the addresses of the ranges, in order, each at most 256 MiB |
| MemoryPlan.ChunksFull | src/diag/memory.c:138-146 | each range is cut from its start into chunks of exactly 256 MiB and a rest |
| MemoryPlan.PlanComplete | src/diag/memory.c:321-330 | the plan holds every (pattern, operation, chunk), in strictly ascending order of the nested loops, so each exactly once |
| MemoryPlan.PlanBytes | src/diag/memory.c:225-230 | it processes patterns * 2 * num_bytes bytes |
| MemoryTest.MemoryTestState.OpWrite | src/diag/memory.c:90-100 | the piece is overwritten with the pattern over and over, nothing else |
| MemoryTest.MemoryTestState.OpReadAndCheck | src/diag/memory.c:102-132 | fails if and only if some byte of the piece does not read as the pattern |
| MemoryTest.MemoryTestState.PhysMap | src/diag/memory.c:343-343 | the same for a chunk that is mapped piece by piece |
| MemoryTest.MemoryTestState.FillOpData | src/diag/memory.c:79-87 | the pattern repeated through the cache |
| MemoryTest.MemoryTestState.GoNextPattern | src/diag/memory.c:184-199 | what is left afterwards: all visits of the later patterns |
| MemoryTest.MemoryTestState.GoNextOperation | src/diag/memory.c:201-207 | what is left afterwards: the later operations and patterns |
| MemoryTest.MemoryTestState.GoNextRange | src/diag/memory.c:209-215 | what is left afterwards: the later ranges, operations and patterns |
| MemoryTest.MemoryTestState.GoNextChunk | src/diag/memory.c:217-223 | exactly the current visit is taken off what was left |
| MemoryTest.MemoryTestState.Init | src/diag/memory.c:232-319 | an odd number of edges fails; otherwise the whole plan is ahead |
| MemoryTest.MemoryTestState.WriteKeeps | src/diag/memory.c:89-100 | a write leaves the chunks written with the same pattern alone |
| MemoryTest.MemoryTestState.CheckIsGood | src/diag/memory.c:102-132 | a check finds the chunk as written, so it passes if and only if the memory gives it back |
| MemoryTest.MemoryTestState.Step | src/diag/memory.c:331-373 | one step makes exactly the next visit of the plan, keeps the counters right and the percentage monotone, and stops at the first failing check |
| MemoryTest.MemoryTestState.Run | src/diag/memory.c:331-373 | run to its end the test passes if and only if the memory gives back every pattern from every chunk; then all visits were made and the progress is 100 percent |
| Crc32.Composes | src/boot/crc32.c:129-132 | crc32(crc32(c, A), B) == crc32(c, A ++ B) |
| Crc32.Residue | src/boot/crc32.c:129-132 | a message with its own CRC behind it, lowest byte first, always has the CRC 0x2144df1c |
| Crc32.CheckValue | src/boot/crc32.c:129-132 | the CRC of the digits 1 to 9 is 0xcbf43926 |
| Crc32.ByteAsSteps | src/boot/crc32.c:81-81 | shifting in the bits of a byte one by one is eight steps of the register xored with it |
| Crc32.TableStep | src/boot/crc32.c:81-81 | one table entry does eight steps |
| Crc32.WordAsBytes | src/boot/crc32.c:108-115 | a little-endian word and four table steps take in its four bytes in order |
| Crc32.PolyValue | src/boot/crc32.c:57-69 | the exponents make up 0xedb88320 |
| Crc32.CrcTable.MakeCrcTable | src/boot/crc32.c:60-78 | each entry is eight steps of its index |
| Crc32.CrcTable.DoCrc | src/boot/crc32.c:81-81 | one byte by table |
| Crc32.CrcTable.NoComp | src/boot/crc32.c:88-126 | for every buffer, length and alignment the register is that of the bit-by-bit definition, and the words loaded are exactly the aligned ones of the buffer |
| Crc32.CrcTable.Crc32 | src/boot/crc32.c:129-132 | crc32 is the bit-at-a-time reflected CRC of section 8 of RFC 1952 |

## Left out

- Kconfig expressions are values: which node is reused, freed or shared (expr_free, expr_copy) is not captured. expr_transform, expr_eliminate_yn, expr_eliminate_eq and expr_extract_eq, which overwrite nodes through struct expr **, are functions from old to new tree; in expr_eliminate_dups1 and expr_eliminate_dups2, whose two slots lie in one tree, slots are paths into that tree.
- E_LIST and E_RANGE, expr_trans_bool, expr_simplify_unmet_dep and expr_trans_compare against symbol_mod: not used by these results. How symbol.c computes a symbol's value is not part of this model; values are any assignment with the properties stated as Sensible.
- The parts of menu_finalize that propagate dependencies into properties, handle choices, warn about unknown symbols and record sym->dir_dep: they move no entry. The outcome of the nesting test enters KconfigMenu as a given table; FinishedPlaces takes the table to hold outcomes as Nests gives them, on conditions that do not change meanwhile.
- Entries of the menu are known by numbers, and each pointer field is a map from numbers to numbers; allocation is not modelled.
- Reading outside the blob is an undefined result of the parser, and the round trip shows that it does not occur for blobs the printer made. Blobs are shorter than 4 GiB, headers have at least 40 bytes, phandle properties at least 4.
- Padding bytes that dt_flatten skips keep what the buffer held; the format does not look at them. Printing of trees is left out.
- FdtRoundTrip.FlattenUnflatten: assumes that reserve_map_offset points right behind the header; ReaderFindsMapIff says when the map is read back otherwise, and MapFirstIff when a tree that was read has such a header.
- Nodes and properties of a device tree are values; a subtree that dt_copy_subtree moves into the tree is not shared with the overlay here, and property data is copied rather than referenced.
- dt_fixup_all_externals and dt_fix_symbols rewrite property data only. What they make of the relocated overlay is the function World.external, assumed to change neither names nor phandles (DataOnly); without external fixups, and without symbols or target paths, the relocated overlay itself is imported. Splitting a path string and following aliases is World.split.
- DtUnique.OverlayKeepsPhandles: speaks of overlays that apply, whose phandles fit, and whose symbols hold no phandles below an __overlay__ child (SymbolsPlain); SymbolsTwice shows that this is needed; GoodIff and SymbolsIff say exactly when the phandles stay unique without it. What a failing overlay leaves behind is not modelled, because the caller gives up on the tree.
- DtImport.ApplyMeans: names of siblings and of properties are unique in tree and overlay, as the format demands.
- The 32-bit wrap of a fixup offset near 2^32 in dt_adjust_phandle: offsets are unbounded here and such an offset is an error.
- TFTP: nobody but the server sends data packets, and no packet is 65536 or more blocks old, which AcceptedIff shows to be needed. Building the read request, printing, timers and the UDP layer below are left out.
- uIP: the round-trip estimator (its result is an arbitrary value), urgent data, TCP options including the MSS option, zero ports, ICMP, UDP, ARP, fragments and the packets that are sent in answer, except for their checksums. The application is an arbitrary answer per call.
- UipRuns.RunSound: a segment that matches a connection comes from the peer of that connection, not from an earlier one with the same ports and address; TIME_WAIT is there for that. Applications are as in GoodKept.
- UipTcp.GoodKept: assumes that uip_stop is called only while ESTABLISHED; StoppedStays shows what happens otherwise.
- Freed edges of a range list stay in the footprint of the list; ranges_teardown is left out.
- FitMemory.MemoryConserved: needs every RAM range to be roomy (its start can be rounded up and is then not behind its rounded end) and every other range to be non-empty; SmallRamRange, about a range alone, and the assertion start != end say why.
- The tree around the "reg" property (removing old memory nodes, adding the new one, the reserve-map entries, carve-outs for CBMEM) and #size-cells other than 1 and 2, for which the shift in max_range is undefined.
- The memory test's output text, its timing, the failing address it reports and the progress text of memory_test_run. The percentage of an earlier run is still there before the first step. Progress is counted in 64 bits, so 100 times the bytes to process must stay below 2^64. How arch_phys_map maps pages is a parameter: any way to cut a chunk into pieces, the same for writing and checking.
- CRC-32 on a big-endian host, where htole32 swaps.
- Drivers, flash, TPM, verified boot, decompression, kernel entry, command lines, DHCP and the other parts of the repository: device access and glue.
