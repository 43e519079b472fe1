# Verified model of sserialize

This project models the query engines, the query language, two concurrent protocols and the packed
encodings of the sserialize library, and proves what they promise.  The modules, from the top:

* **Query results over cells.**  `CellAlgebra` says what a result means: a map from cell ids to non-empty
  item sets, and the four set operations on such maps.  `FlatTree` and `TreedCqr` model the lazy result,
  whose operations append to flat expression trees in one shared vector; `EagerCqr` models the eager one,
  whose merge loops fetch indices in place; `LazyEager` goes from one to the other and proves that both
  answer every query alike, up to the deviations listed below; `HasHits` asks whether there is any hit.
* **Query language.**  `Tokenizer` sanitizes and splits a query, `Grammar` defines the language,
  `QueryText` says character by character how a query for given tokens is written and proves that it is
  read as these, `Parser` is the shift/reduce automaton over three stacks, `OpTreeEval` evaluates the tree
  afresh and incrementally, and `Iterators` evaluates it element by element.
* **Concurrency.**  `ThreadPool` (one condition variable for workers and flushers) and `IndexFactory`
  (reserve, grow, write and publish under three locks) are state machines over single steps of any number
  of threads.
* **Packed data.**  `Bits` has the machine operators, `BitPacking` the bit-packed arrays, `VarInt` the
  numbers of variable length (section 7.6 of DWARF 5), `RleStream` the run-length stream, `BitStream` the
  unary code and the bit writer.
* **Searches and caches.**  `LcpSearch` is the binary search that skips common prefixes, `RegionSearch`
  finds the cells that meet a rectangle, `ChunkedFiles` and `ChunkCache` are the chunked files.

Item ids of an index are a finite set, and an index id names one in the `CellStore`.  `FlattenResultType`
has distinct values.  Objects that the library updates in place are classes; iterators are values, because
a handle copies a shared iterator before it advances it; the two protocols are datatypes with a step
function.

## What the code does that it should not

Each of these is stated for all inputs, with the exact condition under which the code is right.  For the
eager differences the exact condition is given for every single operation; that a whole query is right
follows from a condition on the query and its inputs.

* The sequential form of `toCQR` keeps one index variable for all cells.  A widened union that came out
  empty is stored with the index of an earlier cell (`LazyEager.ToCqr`, `LazyEager.StaleExample`); the
  parallel form starts every cell afresh and is right (`LazyEager.ToCqrParallel`).  Without a widened tree
  the sequential form is right, too (`LazyEager.NeverStale`).
* The eager `diff` and `symDiff` compare the slot of a full match, which is not written by most operations,
  with the other side's index id.  When they happen to be equal the cell is lost
  (`EagerCqr.EagerCqr.Combine`, `EagerCqr.DiffExactness`, `LazyEager.ClashExample`).  Nothing is lost when
  the slots compared hold the id of their cell's own index, as a completed union writes it; all four
  operations keep that, and `allToFull` does not (`LazyEager.SafeIsHarmless`, `LazyEager.WidenedClashes`).
* `removeEmpty` drops the index of a full match that was fetched, and keeps cells whose fetched index is
  empty, although it counts them as empty (`EagerCqr.EagerCqr.RemoveEmpty`).
* `hasHits` never misses a hit.  It reports one that does not exist exactly for a union of which nothing is
  left, or for a cell that has no items at all (`HasHits.TreeReport`, `HasHits.AnyHits`).
* `syncedWithNotifyOne` notifies after it has released the lock, so the one notification can go to a
  flusher that came later.  A pool can then sleep for ever on a non-empty queue, exactly when at least two
  threads use it (`ThreadPool.DeadlockIff`).
* An update of an operator tree intersects a new left operand with the old result.  This is right for
  every dictionary exactly for prefix and substring lookups (`OpTreeEval.KindsThatNarrow`,
  `OpTreeEval.SetOpTree.Update`, `OpTreeEval.ExtendedWord`).  A tree that was built but not completed
  leaves empty completions behind, which the update takes (`OpTreeEval.BuiltThenUpdated`), and building the
  query that was built last does nothing even if the tree has been updated to another one since
  (`OpTreeEval.SetOpTree.BuildTree`).
* Sanitizing counts braces inside the arguments of function calls (`Tokenizer.CallUnbalances`).  An operator
  or brace can be missing exactly if the braces outside of the calls do not match after sanitizing
  (`Tokenizer.QueryVerdict`).
* Sanitizing takes no note of escapes.  A word of special characters only, between two operators, makes them
  look like a double operator, and the second is dropped: `a+\-+b` is read as `a` united with `-b`
  (`QueryText.HiddenWord`).  A query is left as it is exactly if its braces match, its escapes are complete
  and no operator follows an operator with nothing but braces and escapes between them (`Tokenizer.NeatIff`).
  With a blank before such words every query of the language can be written (`QueryText.PhraseIsRead`).
* `lowerBound` answers 0 for an exact query when the first entry starts with the string
  (`LcpSearch.LowerBound`), and completion drops a match at position 0, which also hides that wrong answer
  (`LcpSearch.Completed`).
* Reading a compressed file leaves out the last chunk when the bytes end with it
  (`ChunkCache.CompressedMmappedFile.Read`, `ChunkCache.ReadIsWhole`).
* The code word of a run keeps 30 bits of its length.  A run of 2^30 or more equal differences is read back
  with its length modulo 2^30, or with 2^32 numbers if that is 0 (`RleStream.RunReadAs`).

## Model

| member | source | states |
|---|---|---|
| `CellAlgebra.MergeMeaning` | src/spatial/TreedCQRImp.cpp:478-580 | the merge of two sorted cell lists, cell by cell, means the pointwise set operation on the two maps |
| `CellAlgebra.MergeIsPointwise` | src/spatial/CellQueryResultPrivate.cpp:239-318 | a cell is in the merged list with exactly the items the operation gives for it, and lists stay sorted |
| `CellAlgebra.FinishMerge` | src/spatial/TreedCQRImp.cpp:560-579 | when one side of a merge loop is used up, appending the rest that the operation keeps gives the whole meaning |
| `CellAlgebra.MistakeLosesCells` | src/spatial/CellQueryResultPrivate.cpp:474 | treating some cells as equal loses exactly those cells from the result |
| `CellAlgebra.ApplyItems` | src/spatial/CellQueryResultPrivate.cpp:545 | an item is kept by an intersection if both operands have it, by a union if either has, by a difference if only the left has, by a symmetric difference if exactly one has |
| `CellAlgebra.PointwiseSelects` | src/spatial/CellQueryResultPrivate.cpp:239-582 | item by item and cell by cell, the pointwise operation holds what that rule selects, and nothing of the cells that are lost |
| `CellAlgebra.SelectsOne` | src/spatial/CellQueryResultPrivate.cpp:239-582 | that rule determines the whole result |
| `CellAlgebra.FullItems` | src/spatial/TreedCQRImp.cpp:18-27 | a full match has the items of the cell's own index, or with local ids the positions below its size |
| `FlatTree.EvalInCell` | src/spatial/TreedCQRImp.cpp:29-160 | a well-formed tree never stands for items outside its cell |
| `FlatTree.RenumberKeepsTree` | src/spatial/TreedCQRImp.cpp:424-453 | renumbering fetched leaves to equal indices keeps a tree well formed and keeps its meaning |
| `FlatTree.FlattenIsEval` | src/spatial/TreedCQRImp.cpp:29-160 | the shortcuts for full matches together compute the meaning of the tree |
| `FlatTree.FreshIdx` | src/spatial/TreedCQRImp.cpp:29-160 | with a fresh index variable, that variable ends up as exactly the reported fetched index |
| `TreedCqr.PushKeepsPlan` | src/spatial/TreedCQRImp.cpp:424-439 | appending a descriptor behind all trees keeps ids ascending, ranges disjoint and every earlier cell |
| `TreedCqr.JoinedTree` | src/spatial/TreedCQRImp.cpp:549-569 | a head node whose `childB` is the size of the left tree plus one joins two trees to the tree of the operation |
| `TreedCqr.CopiedTree` | src/spatial/TreedCQRImp.cpp:424-453 | a renumbered copy of a cell's tree is a well-formed tree for the same items |
| `TreedCqr.ShiftingStep` | src/spatial/TreedCQRImp.cpp:646-693 | moving one range of a block copy touches neither the trees already moved nor those still to move |
| `TreedCqr.RestKeepsPlan` | src/spatial/TreedCQRImp.cpp:646-693 | shifted copies of the remaining descriptors give a valid plan with the cells of both |
| `TreedCqr.FlattenOp` | src/spatial/TreedCQRImp.cpp:60-160 | `childB` splits the range of an operator into the ranges of its two operands |
| `TreedCqr.TreedCqr.FromMatches` | src/spatial/TreedCQRImp.cpp:273-339 | the result of full and partial matches: a full match wins over a partial one of the same cell |
| `TreedCqr.TreedCqr.CopyTree` | src/spatial/TreedCQRImp.cpp:424-438 | the appended nodes are the copied tree with fetched leaves renumbered to equal indices |
| `TreedCqr.TreedCqr.CopyFetchedIndices` | src/spatial/TreedCQRImp.cpp:440-453 | only the fetched leaves of the range change, and each names an equal index afterwards |
| `TreedCqr.TreedCqr.PushOp` | src/spatial/TreedCQRImp.cpp:549-569 | the appended cell has the items of the operation on the two cells, as a tree of their trees |
| `TreedCqr.TreedCqr.AppendRest` | src/spatial/TreedCQRImp.cpp:646-693 | copying the rest block-wise and shifting its ranges appends exactly the remaining cells |
| `TreedCqr.TreedCqr.ShiftTrees` | src/spatial/TreedCQRImp.cpp:662-690 | every range is corrected by the same offset and every tree keeps its nodes up to fetched numbers |
| `TreedCqr.TreedCqr.Combine` | src/spatial/TreedCQRImp.cpp:478-914 | each of the four operations keeps the plan valid; an item of a cell is in the result exactly if both operands have it, either has, only the left has, or exactly one has |
| `TreedCqr.TreedCqr.AllToFull` | src/spatial/TreedCQRImp.cpp:916-938 | every non-empty cell gets all of its items and nothing else changes |
| `TreedCqr.TreedCqr.FlattenCell` | src/spatial/TreedCQRImp.cpp:29-160 | reports exactly the outcome of the flattening function and leaves in the index variable what it says |
| `EagerCqr.ClashIff` | src/spatial/CellQueryResultPrivate.cpp:474 | a common cell is lost exactly if its two slots hold the same word while one side is a full match |
| `EagerCqr.DiffExactness` | src/spatial/CellQueryResultPrivate.cpp:445-582 | losing the clashing cells changes nothing exactly if each clashing index has all items of its cell |
| `EagerCqr.DiffOfPart` | src/spatial/CellQueryResultPrivate.cpp:474-478 | a difference with a full match is empty exactly if the part is the whole |
| `EagerCqr.OwnIndexIsFull` | src/spatial/CellQueryResultPrivate.cpp:371 | a cell's own index, met as a partial match, has all items of the cell, with global and with local ids |
| `EagerCqr.WrittenLosesNothing` | src/spatial/CellQueryResultPrivate.cpp:371-542 | if the slots that are compared hold the id of their cell's own index, no cell is lost |
| `EagerCqr.FromWritten` | src/spatial/CellQueryResultPrivate.cpp:239-582 | a result whose words come from the operands' slots has written slots if the operands have |
| `EagerCqr.LaterWritten` | src/spatial/CellQueryResultPrivate.cpp:168-191 | fetching indices keeps slots written |
| `EagerCqr.EagerCqr.FromMatches` | src/spatial/CellQueryResultPrivate.cpp:14-62 | the merging constructor gives the map of the matches, with full matches absorbing partial ones; exactly the cells of full matches are marked as full, and only the others hold fetched indices |
| `EagerCqr.EagerCqr.Fetch` | src/spatial/CellQueryResultPrivate.cpp:168-191 | fetching an index returns the cell's items, marks only that slot and changes no cell |
| `EagerCqr.EagerCqr.IntersectCell` | src/spatial/CellQueryResultPrivate.cpp:262-313 | one common cell: the intersection, with full matches handed on and equal ids taken as equal |
| `EagerCqr.EagerCqr.UniteCell` | src/spatial/CellQueryResultPrivate.cpp:358-415 | one common cell: the union, which is marked as a full match exactly if one side is, or if two sides under different ids together have all items of the cell |
| `EagerCqr.CompleteUnion` | src/spatial/CellQueryResultPrivate.cpp:368-372 | comparing sizes tells exactly whether the union has every item of the cell |
| `EagerCqr.EagerCqr.DiffCell` | src/spatial/CellQueryResultPrivate.cpp:474-484 | one common cell: the difference, or nothing where two words clash |
| `EagerCqr.EagerCqr.SymDiffCell` | src/spatial/CellQueryResultPrivate.cpp:541-552 | one common cell: the items that exactly one side has, never as a full match, or nothing where two words clash |
| `EagerCqr.EagerCqr.Combine` | src/spatial/CellQueryResultPrivate.cpp:239-582 | outside of the clashing cells an item is in the result exactly if both operands have it, either has, only the left has, or exactly one has, and nothing is in the clashing cells; the operation keeps ids ascending, changes the operands only by fetching, and takes every word in a slot from a slot of the operands or from the cell itself |
| `EagerCqr.EagerCqr.AllToFull` | src/spatial/CellQueryResultPrivate.cpp:584-596 | every cell, and no other, is marked as a full match that is not fetched, with all of its items |
| `EagerCqr.EagerCqr.RemoveEmpty` | src/spatial/CellQueryResultPrivate.cpp:598-634 | the kept table is valid exactly if there was neither a fetched full match nor an empty index, and means the same unless a fetched full match was there |
| `LazyEager.FlattenDesc` | include/sserialize/spatial/TreedCQRImp.h:289-328 | one cell of the conversion is stored with its items, or dropped if it has none, unless it is stale |
| `LazyEager.ToCqr` | include/sserialize/spatial/TreedCQRImp.h:276-331 | the sequential conversion is valid and means the same exactly if no cell is stale, and always if no tree begins with a widening node |
| `LazyEager.NeverStale` | include/sserialize/spatial/TreedCQRImp.h:303-316 | only a tree that begins with a widening node can be stale |
| `LazyEager.ToCqrParallel` | include/sserialize/spatial/TreedCQRImp.h:189-273 | the parallel conversion means the same in every order of cells, with marks for empty cells if those are kept |
| `LazyEager.LeftoverIsWrong` | include/sserialize/spatial/TreedCQRImp.h:303-316 | a stored leftover index makes the whole result differ from the plan |
| `LazyEager.StaleCellIsEmpty` | src/spatial/TreedCQRImp.cpp:43-57 | a cell that is stored with a leftover index has no items |
| `LazyEager.FromCqr` | src/spatial/TreedCQRImp.cpp:341-400 | a lazy result made from an eager one has the same cells |
| `LazyEager.EvalLazy` | src/spatial/TreedCQRImp.cpp:478-938 | every expression of the five operations, evaluated lazily, means its pointwise answer; without widening no tree begins with a widening node |
| `LazyEager.EvalEager` | src/spatial/CellQueryResultPrivate.cpp:239-596 | every expression, evaluated eagerly, is combined step by step from the tables of its inputs, losing at a difference exactly the cells whose compared words clash |
| `LazyEager.SafeIsHarmless` | src/spatial/CellQueryResultPrivate.cpp:239-596 | an expression loses nothing if it has no differences, or if its inputs have written slots and nothing is widened where differences compare |
| `LazyEager.HarmlessIsExact` | src/spatial/CellQueryResultPrivate.cpp:239-596 | an evaluation in which no operation loses a cell gives exactly the pointwise answer, differences included |
| `LazyEager.StaysWritten` | src/spatial/CellQueryResultPrivate.cpp:239-582 | without widening, every result of an expression over inputs with written slots has written slots |
| `LazyEager.AnswerItems` | src/spatial/TreedCQRImp.cpp:478-938 | an item of a cell is in the answer to an expression exactly if its inputs select it, operation by operation; widening takes all items of the cells that have one |
| `LazyEager.LazyAgreesWithEager` | src/spatial/TreedCQRImp.cpp:29-160 | for every expression over any inputs the plan and its parallel flattening give the answer, which has exactly the items that the operations select from the inputs; sequential flattening gives it exactly if no cell is stale, and if nothing is widened; eager evaluation gives it if no operation loses a cell, which the query and the inputs decide |
| `LazyEager.StaleExample` | include/sserialize/spatial/TreedCQRImp.h:289-316 | a plan of two cells in which the second is stale |
| `LazyEager.ClashExample` | src/spatial/CellQueryResultPrivate.cpp:474 | two tables for which a difference loses items |
| `LazyEager.WidenedClashes` | src/spatial/CellQueryResultPrivate.cpp:584-596 | a difference with a widened left operand that is wrong although all inputs have written slots |
| `HasHits.NiceEval` | src/spatial/TreedCQRImp.cpp:164-208 | a tree of intersections stands for the items common to all of its leaves and the cell |
| `HasHits.NiceReport` | src/spatial/TreedCQRImp.cpp:162-208 | for a tree of intersections the report is right |
| `HasHits.TreeReport` | src/spatial/TreedCQRImp.cpp:162-218 | for the tree of a cell no hit is missed, and one is invented exactly for a union in vain |
| `HasHits.EmptyIndexIff` | src/spatial/TreedCQRImp.cpp:103-115 | flattening ends in an empty index exactly for a union in vain at the root, below widening nodes or beside a full match |
| `HasHits.EmptyUnionReported` | src/spatial/TreedCQRImp.cpp:103-115 | every union of two empty operands is reported as a hit |
| `HasHits.CellHasHits` | src/spatial/TreedCQRImp.cpp:162-218 | the two passes over a tree compute the report that the lemmas speak of |
| `HasHits.ResultReport` | src/spatial/TreedCQRImp.cpp:461-476 | some cell is reported exactly if the result is not empty or some cell is invented |
| `HasHits.AnyHits` | src/spatial/TreedCQRImp.cpp:461-476 | a result that is not empty always has hits; the answer is wrong exactly if the result is empty and some cell is invented |
| `Tokenizer.Sanitize` | src/search/SetOpTreePrivate_parser.cpp:21-66 | the loop computes the sanitizing function |
| `Tokenizer.SanitizeIdempotent` | src/search/SetOpTreePrivate_parser.cpp:21-66 | sanitizing twice is sanitizing once, for every string |
| `Tokenizer.SanitizedIsBalanced` | src/search/SetOpTreePrivate_parser.cpp:21-66 | unescaped braces of a sanitized string match and no escape is cut off |
| `Tokenizer.SanitizedIsNeat` | src/search/SetOpTreePrivate_parser.cpp:21-66 | what sanitizing gives needs no repair |
| `Tokenizer.NeatIff` | src/search/SetOpTreePrivate_parser.cpp:21-66 | a query is left as it is exactly if it needs no repair: braces match, escapes are complete, no operator is doubled |
| `Tokenizer.Tokenizer.ReadString` | src/search/SetOpTreePrivate_parser.cpp:72-93 | takes the search string that begins here, without its escapes |
| `Tokenizer.Tokenizer.ReadExternal` | src/search/SetOpTreePrivate_parser.cpp:95-138 | takes the call that begins here, name and argument, or neither if a blank comes before the bracket |
| `Tokenizer.Tokenizer.Next` | src/search/SetOpTreePrivate_parser.cpp:150-214 | takes the first of the remaining tokens, or reports the end; it terminates on every string |
| `Tokenizer.OperandsApart` | src/search/SetOpTreePrivate_parser.cpp:150-214 | for every string, calls included, no operand begins directly behind an operand |
| `Tokenizer.VerdictFrom` | src/search/SetOpTreePrivate_parser.cpp:150-214 | from any position: if braces outside of calls match, no operator or closing brace is missing; if they do not, the tokens are not accepted |
| `Tokenizer.QueryVerdict` | src/search/SetOpTreePrivate_parser.cpp:374-406 | where no operand is missing, the automaton fails exactly if the braces outside of calls do not match after sanitizing |
| `Tokenizer.PlainQuery` | src/search/SetOpTreePrivate_parser.cpp:21-66 | they do match for every query without a call, also if it has escaped dollar signs |
| `Tokenizer.CallUnbalances` | src/search/SetOpTreePrivate_parser.cpp:21-66 | a query whose call brings the braces out of balance, so that it is not accepted |
| `QueryText.WrittenIsNeat` | src/search/SetOpTreePrivate_parser.cpp:21-66 | what is written for tokens of the language needs no repair |
| `QueryText.WrittenIsRead` | src/search/SetOpTreePrivate_parser.cpp:150-214 | from any position, the text that is written for tokens of the language is read as these tokens: each sign as its operation, a blank or nothing between operands as an intersection, escaped characters as words |
| `QueryText.PhraseIsRead` | src/search/SetOpTreePrivate_parser.cpp:21-214 | the query written for any phrase, in any layout, has its tokens and its tree |
| `QueryText.TreeIsRead` | src/search/SetOpTreePrivateComplex.cpp:72-101 | every tree can be written as a query, which has that tree |
| `QueryText.TwoWords` | src/search/SetOpTreePrivateComplex.cpp:132-141 | between two words + is read as union, - as difference, / as intersection, ^ as symmetric difference and a blank as intersection |
| `QueryText.OneCall` | src/search/SetOpTreePrivate_parser.cpp:95-138 | a call is read with its name and its argument |
| `QueryText.HiddenWord` | src/search/SetOpTreePrivate_parser.cpp:21-66 | a query in which a word of special characters makes the sanitizer drop an operator |
| `Grammar.LongestIsTaken` | src/search/SetOpTreePrivate_parser.cpp:466-480 | the tree of any tokens is determined: that of the longest phrase behind as few opening braces as possible |
| `Parser.BottomTree` | src/search/SetOpTreePrivate_parser.cpp:466-480 | when the automaton stops, that tree lies at the bottom of the node stack |
| `Grammar.ScanInfix` | src/search/OpTree.cpp:8-179 | every derivation is accepted by the left-to-right scan |
| `Grammar.UniqueInfix` | src/search/OpTree.cpp:8-179 | no two derivations yield the same tokens |
| `Grammar.PrintedTree` | src/search/SetOpTreePrivateComplex.cpp:72-101 | the fully braced layout of a tree derives that tree |
| `Parser.ReduceOperator` | src/search/SetOpTreePrivate_parser.cpp:441-464 | reducing an operator pops three symbols, replaces two nodes by one and keeps what the stacks spell |
| `Parser.ReduceBrace` | src/search/SetOpTreePrivate_parser.cpp:424-440 | reducing a brace pops three symbols that are there and leaves the nodes alone |
| `Parser.Parse` | src/search/SetOpTreePrivate_parser.cpp:314-480 | on every token stream the automaton terminates without popping an empty stack, accepts exactly the derivable streams and returns their unique left-associative tree; on any other stream it returns the tree of the longest phrase behind as few opening braces as possible, if there is one |
| `Parser.Build` | src/search/SetOpTreePrivate_parser.cpp:293-480 | the same for every query string; a query that is written for a tree gives that tree, so that the left word of a difference is the left child |
| `Parser.PrintedIsRead` | src/search/SetOpTreePrivateComplex.cpp:72-101 | parsing the tokens of a fully braced tree gives that tree back |
| `Parser.DepthOf` | src/search/SetOpTreePrivate_parser.cpp:374-406 | the state on top of the stack says whether a brace is open |
| `OpTreeEval.Completion` | src/search/SetOpTreePrivate_parser.cpp:245-291 | quotes and asterisks select the kind of lookup and are removed |
| `OpTreeEval.KindsOfLookup` | src/search/SetOpTreePrivate_parser.cpp:245-291 | for every word each of the four kinds can be asked for |
| `OpTreeEval.CompletionStringDifference` | src/search/SetOpTreePrivateComplex.cpp:108-130 | equal, extended, shortened or different, exactly |
| `OpTreeEval.SetOpTree.Evaluate` | src/search/SetOpTreePrivateComplex.cpp:144-209 | every node keeps a value afterwards, and they are right exactly if the completions of a fresh tree are |
| `OpTreeEval.SetOpTree.EvaluateUpdate` | src/search/SetOpTreePrivateComplex.cpp:221-329 | all kept values are right exactly if the completions are and every old value is reused rightly |
| `OpTreeEval.ReuseOfRight` | src/search/SetOpTreePrivateComplex.cpp:275-287 | beside an evaluated tree only narrowing can go wrong, namely where the new value leaves the old left operand |
| `OpTreeEval.NarrowingIsEnough` | src/search/SetOpTreePrivateComplex.cpp:279-281 | a completer that finds no more for longer strings makes every reuse right |
| `OpTreeEval.KindsThatNarrow` | src/search/SetOpTreePrivateComplex.cpp:279-281 | lookups narrow in every dictionary exactly if they are prefix or substring lookups |
| `OpTreeEval.SetOpTree.BuildTree` | src/search/SetOpTreePrivateComplex.cpp:483-494 | replaces the tree by that of the query and empties the completions of its lookups, or does nothing for the query that was built last |
| `OpTreeEval.SetOpTree.DoCompletions` | src/search/SetOpTreePrivateComplex.cpp:526-530 | every known lookup gets the completer's items |
| `OpTreeEval.SetOpTree.DoSetOperations` | src/search/SetOpTreePrivateComplex.cpp:532-537 | evaluates the tree afresh when its completions are right |
| `OpTreeEval.TreeItems` | src/search/SetOpTreePrivateComplex.cpp:144-209 | an item is in the value of a parsed tree exactly if its leaves select it through the completer: of both children, of either, of the left and not the right, of exactly one |
| `OpTreeEval.SetOpTree.Update` | src/search/SetOpTreePrivateComplex.cpp:504-524 | the new tree is that of the query, and its values are those of a fresh evaluation exactly under the stated conditions on old completions and reuse; if they are, an item is in the answer exactly if the tree of the query selects it |
| `OpTreeEval.ParsedIsDerived` | src/search/SetOpTreePrivateComplex.cpp:132-141 | a query of the language has one tree |
| `OpTreeEval.Session` | src/search/SetOpTreePrivateComplex.cpp:504-524 | any sequence of updates with unquoted queries, well formed or not, answers each query with exactly the items that its tree selects, as a fresh evaluation does |
| `OpTreeEval.WrittenAnswer` | src/search/SetOpTreePrivateComplex.cpp:132-209 | a query that is written for a tree is answered with the items that this tree selects |
| `OpTreeEval.TwoWordAnswers` | src/search/SetOpTreePrivateComplex.cpp:132-209 | the query v-w is answered with the items found for v and not for w, and the other four likewise |
| `OpTreeEval.ExtendedWord` | src/search/SetOpTreePrivateComplex.cpp:279-281 | a dictionary and two exact queries for which narrowing is wrong |
| `OpTreeEval.BuiltThenUpdated` | src/search/SetOpTreePrivateComplex.cpp:483-524 | building without completing and then updating is wrong whenever some lookup has items |
| `Iterators.CurrentIsLeast` | src/containers/ItemIndexIteratorSetOp.cpp:38-44 | a valid iterator stands at the least id still to come, an invalid one has none |
| `Iterators.UniteNext` | src/containers/ItemIndexIteratorSetOp.cpp:83-112 | one step gives the least id of the union, and the rest remains |
| `Iterators.IntersectNext` | src/containers/ItemIndexIteratorSetOp.cpp:114-132 | one step gives the least common id, or ends if there is none |
| `Iterators.DiffNext` | src/containers/ItemIndexIteratorSetOp.cpp:134-158 | one step gives the least id of the difference |
| `Iterators.XorNext` | src/containers/ItemIndexIteratorSetOp.cpp:160-193 | one step gives the least id of the symmetric difference |
| `Iterators.MoveToNext` | src/containers/ItemIndexIteratorIntersecting.cpp:58-88 | n iterators (n at least 1) advance to the least id that all have; the loop terminates |
| `Iterators.Next` | src/containers/ItemIndexIterator.cpp:119-127 | advancing any nested iterator removes exactly its current id from those still to come |
| `Iterators.Reset` | src/containers/ItemIndexIteratorSetOp.cpp:75-80 | back to all ids of the operation |
| `Iterators.UpperFits` | src/containers/ItemIndexIteratorSetOp.cpp:23-36 | the announced size bounds the number of ids |
| `Iterators.BoundIsTight` | src/containers/ItemIndexIteratorSetOp.cpp:23-36 | no smaller size would do: for all operand sizes there are operands of which the operation has that many ids |
| `Iterators.ToItemIndex` | src/containers/ItemIndexIterator.cpp:140-158 | reading to the end gives exactly the ids still to come, strictly ascending and within the announced size |
| `Iterators.CreateItemIndexIteratorTree` | src/search/SetOpTreePrivateComplex.cpp:400-455 | the iterator of a tree has exactly the items of the tree's value to come |
| `Iterators.IterateAndEvaluate` | src/search/SetOpTreePrivateComplex.cpp:496-537 | iterating over a tree lists exactly what evaluating it gives |
| `ThreadPool.StepKeepsAccount` | src/mt/ThreadPool.cpp:6-27 | every step keeps scheduled = queued + running + finished, tasks start once and in order |
| `ThreadPool.FlushReturns` | src/mt/ThreadPool.cpp:67-74 | flushing returns exactly when every task scheduled so far is finished |
| `ThreadPool.FlushHolds` | src/mt/ThreadPool.cpp:67-74 | no step lets a client out of flushing before every task scheduled so far is finished |
| `ThreadPool.StepKeepsAwake` | src/mt/ThreadPool.cpp:44-57 | a flusher sleeps only while there is work or a broadcast under way, and no worker sleeps through a stop |
| `ThreadPool.StopProgress` | src/mt/ThreadPool.cpp:44-57 | while a stop waits every remaining worker can move on by itself |
| `ThreadPool.LosingStep` | include/sserialize/mt/GuardedVariable.h:58-62 | a step loses a task exactly if the last notification under way goes to a flusher while all workers sleep |
| `ThreadPool.AllAreNotified` | include/sserialize/mt/GuardedVariable.h:63-66 | a notification to all leaves neither a worker nor a flusher asleep |
| `ThreadPool.FallsAsleep` | src/mt/ThreadPool.cpp:8-19 | a worker falls asleep only from the head of its loop, online and with nothing queued |
| `ThreadPool.StepKeepsStaff` | src/mt/ThreadPool.cpp:8 | no worker leaves while the pool is online, and a stop is over only when all have left |
| `ThreadPool.OldestIsStarted` | src/mt/ThreadPool.cpp:16-22 | a task starts only online, and it is the one that has waited longest |
| `ThreadPool.RunInvariant` | src/mt/ThreadPool.cpp:6-94 | the account of tasks, the rule on sleepers and the rule on leaving hold after every run with any interleaving and spurious wake-ups |
| `ThreadPool.OneClientIsSafe` | src/mt/ThreadPool.cpp:67-94 | with at most one client thread no run reaches a state in which tasks are queued online, all workers sleep and no notification is under way |
| `ThreadPool.QueueIsServed` | src/mt/ThreadPool.cpp:6-94 | after any run of a new pool that is online with a task queued and not lost, some worker is awake and at work or some client still owes a notification, and one of them can bring the task forward |
| `ThreadPool.OneClientIsServed` | src/mt/ThreadPool.cpp:6-94 | with at most one client thread, after any run that leaves the pool online, no worker has left and a queued task can be brought forward |
| `ThreadPool.DeadlockIsFinal` | include/sserialize/mt/GuardedVariable.h:58-62 | in a deadlock only spurious wake-ups and a stop are left |
| `ThreadPool.DeadlockIff` | src/mt/ThreadPool.cpp:89-94 | a deadlock with queued tasks is reachable exactly if at least two threads use the pool |
| `IndexFactory.StepKeeps` | src/containers/ItemIndexFactory.cpp:191-250 | every step of every thread keeps dense ids, adjacent disjoint ranges and the bytes written so far |
| `IndexFactory.Progress` | src/containers/ItemIndexFactory.cpp:219-232 | no write leaves the grown store, and some pending call can always go on |
| `IndexFactory.GrowsAlone` | src/containers/ItemIndexFactory.cpp:219-232 | the store grows only while no call writes, only for a call whose range reaches its end, and then far enough |
| `IndexFactory.RunKeeps` | src/containers/ItemIndexFactory.cpp:191-250 | the invariant holds after every interleaving |
| `IndexFactory.QuietIsPublished` | src/containers/ItemIndexFactory.cpp:234-249 | when no call is pending every id is published with all of its bytes |
| `IndexFactory.ReadBack` | src/Static/ItemIndexStore.cpp:217-243 | after flushing, the data at an id are exactly the bytes reserved for it, the last one ending with the data |
| `IndexFactory.AddIndexCorrect` | src/containers/ItemIndexFactory.cpp:191-298 | after any interleaving of any calls each id reads back its bytes, and equal digests mean equal ids exactly with deduplication |
| `Bits.SameBits` | src/containers/CompactUintArray.cpp:65-82 | a number is determined by its bits |
| `Bits.ShiftDivides` | src/containers/CompactUintArray.cpp:10-13 | shifting divides and cutting takes the remainder |
| `BitPacking.ReadBits` | src/containers/CompactUintArray.cpp:65-82 | collecting shifted bytes gives the number in the bits from any position, of any width up to the word |
| `BitPacking.WriteBits` | src/containers/CompactUintArray.cpp:84-123 | masking and or-ing bytes sets exactly the bits of the field and no other |
| `BitPacking.StorageIsLeast` | src/containers/CompactUintArray.cpp:482-485 | the storage size is the least that holds all bits |
| `BitPacking.CompactUintArray.constructor` | src/containers/CompactUintArray.cpp:281-309 | the width is clamped to 1 to 64 and as many numbers as fit are admitted |
| `BitPacking.CompactUintArray.At` | src/containers/CompactUintArray.cpp:391-396 | the element, or an error beyond the end |
| `BitPacking.CompactUintArray.Set` | src/containers/CompactUintArray.cpp:215-407 | the sequence of numbers changes in one place, to the value modulo 2^bpn; that is returned, but the value itself at 8, 24 and 32 bits |
| `BitPacking.EntryStorageIsLeast` | src/containers/MultiVarBitArray.cpp:236-238 | the split formula is the least storage for all entries |
| `BitPacking.FieldsLayout` | src/containers/MultiVarBitArray.cpp:85 | field j of entry i begins behind i whole entries and the widths of the fields before it |
| `BitPacking.MultiVarBitArray.At` | src/containers/MultiVarBitArray.cpp:75-98 | field j of entry i, or an error beyond the end |
| `BitPacking.MultiVarBitArray.Set` | src/containers/MultiVarBitArray.cpp:102-147 | one field changes, no other field of any entry does |
| `BitPacking.MultiVarBitArray.Reserve` | src/containers/MultiVarBitArray.cpp:260-269 | growing keeps all fields and allocates the least storage |
| `BitPacking.MultiVarBitArray.Put` | src/containers/MultiVarBitArray.cpp:271-278 | setting beyond the end grows first; the answer says exactly whether the value fits its field |
| `VarInt.UnpackPacked` | include/sserialize/storage/pack_unpack_functions.h:369-403 | unpacking what was packed gives the number and its length, whatever follows |
| `VarInt.ZigzagBits` | include/sserialize/storage/pack_unpack_functions.h:313-328 | the lowest bit of a packed signed number is set exactly for negative numbers, the others are its absolute value |
| `VarInt.Pack` | src/storage/pack_unpack_functions.cpp:7-83 | writes the packed bytes and nothing else, or the negative length if there is no room |
| `VarInt.Unpack` | include/sserialize/storage/pack_unpack_functions.h:369-403 | reads the number at a position if it is complete |
| `RleStream.Creator.Put` | src/containers/RLEStream.cpp:17-28 | appends a value unless its difference leaves 32 bits; it continues the pending run exactly if the difference is the same, and the run gets too long with its 2^30th value |
| `RleStream.MoveWraps` | src/containers/RLEStream.cpp:103-137 | the next number is the only 32-bit number that differs from the sum by a multiple of 2^32 |
| `RleStream.Creator.Flush` | src/containers/RLEStream.cpp:36-56 | writes the code word of the pending run without changing the values |
| `RleStream.Creator.Checkpoint` | src/containers/RLEStream.cpp:30-34 | appends a value outright |
| `RleStream.WriteOut` | src/containers/RLEStream.cpp:36-56 | the code word of a pending run that is not too long stands for exactly its values |
| `RleStream.RleStream.Next` | src/containers/RLEStream.cpp:103-137 | moves to the next value, and stays at the last one at the end |
| `RleStream.ReadBack` | src/containers/RLEStream.cpp:103-137 | reading any number of values of a stream gives those of its code words, in 32-bit arithmetic and also for runs that were too long |
| `RleStream.Write` | src/containers/RLEStream.cpp:17-56 | any sequence of puts, checkpoints and flushes keeps the accepted values, and a run gets too long exactly if 2^30 differences in a row are equal |
| `RleStream.RoundTrip` | src/containers/RLEStream.cpp:17-137 | decoding gives back the accepted values of any calls whose runs are shorter than 2^30 |
| `RleStream.FromCheckpoint` | src/containers/RLEStream.cpp:30-34 | from the offset of a checkpoint the rest of the stream can be read alone |
| `RleStream.RunReadAs` | src/containers/RLEStream.cpp:51 | what a run of any length is read as; it keeps its length exactly below 2^30 |
| `BitStream.UnaryCodeCreator.Put` | src/iterator/UnaryCodeIterator.cpp:111-128 | appends zeros and a one to the bits, for every chunk width |
| `BitStream.UnaryCodeCreator.Flush` | src/iterator/UnaryCodeIterator.cpp:130-134 | the chunks are the codes of all numbers, padded with zeros |
| `BitStream.UnaryCodeIterator.Next` | src/iterator/UnaryCodeIterator.cpp:31-80 | reads one number across chunks and leaves the following bits |
| `BitStream.ReadBack` | src/iterator/UnaryCodeIterator.cpp:31-134 | decoding gives the numbers back, for every chunk width |
| `BitStream.ScannedOnce` | src/iterator/UnaryCodeIterator.cpp:31-80 | a unary code can be read off a bit string in one way only |
| `BitStream.MultiBitBackInserter.PushBack` | src/iterator/MultiBitBackInserter.cpp:26-59 | output and pending bits together grow by the code, most significant bit first, for lengths up to 64 |
| `BitStream.MultiBitBackInserter.FillBytes` | src/iterator/MultiBitBackInserter.cpp:51-54 | the bytes from the last to the first hold the value behind the pending bits |
| `BitStream.MultiBitBackInserter.Flush` | src/iterator/MultiBitBackInserter.cpp:61-67 | the last byte is written with zeros behind its bits |
| `LcpSearch.Between` | src/Static/FlatGeneralizedTrie.cpp:173-186 | what lies between two strings shares with the query what both share with it |
| `LcpSearch.CalcLcp` | src/strings/stringfunctions.cpp:108-119 | the length of the longest common prefix |
| `LcpSearch.Compare` | src/strings/stringfunctions.cpp:121-143 | starting behind bytes that agree never changes the outcome |
| `LcpSearch.LowerBound` | src/Static/FlatGeneralizedTrie.cpp:156-209 | prefix queries: the first entry that starts with the string, or -1; exact queries: right exactly if the first entry does not properly start with it |
| `LcpSearch.Completed` | src/Static/FlatGeneralizedTrie.cpp:223-229 | completion finds a match exactly if there is one and it is not at position 0, for prefix and for exact queries |
| `RegionSearch.RectanglesNest` | src/spatial/GeoRect.cpp:143-159 | how containing and overlapping rectangles nest |
| `RegionSearch.OverlapIff` | src/spatial/GeoRect.cpp:143-151 | two rectangles overlap exactly if they have a point in common |
| `RegionSearch.ContainsIff` | src/spatial/GeoRect.cpp:153-159 | a rectangle contains another exactly if it has all of its points |
| `RegionSearch.ExclusiveCells` | src/spatial/GeoHierarchy.cpp:383-397 | the cells of which the region is the first parent, or all cells of a region without children |
| `RegionSearch.OnTheWay` | src/Static/GeoHierarchy.cpp:769-795 | every region above a wanted cell is visited unless the cell was found earlier |
| `RegionSearch.AllFound` | src/Static/GeoHierarchy.cpp:769-795 | with the queue empty every wanted cell is found, because it is exclusive at its first parent |
| `RegionSearch.IntersectingCells` | src/Static/GeoHierarchy.cpp:755-802 | exactly the cells in some region whose boundary has a point in common with the rectangle, sorted and without repeats; the search terminates |
| `ChunkedFiles.ChunkedMmappedFile.Read` | src/storage/ChunkedMmappedFile.cpp:233-260 | copies exactly the slice clipped to the file size, for any offset, length and chunk size, and whichever chunks are mapped, changed and evicted |
| `ChunkedFiles.ChunkedMmappedFile.Write` | src/storage/ChunkedMmappedFile.cpp:262-292 | replaces exactly that slice of the file, in mapped chunks that reach the disk when they are evicted |
| `ChunkedFiles.UnmapSeesSame` | src/storage/ChunkedMmappedFile.cpp:206-217 | giving up any mapped chunk changes no byte that users see |
| `ChunkedFiles.MapSeesSame` | src/storage/ChunkedMmappedFile.cpp:191-204 | mapping a chunk changes no byte that users see |
| `ChunkedFiles.PatchSeen` | src/storage/ChunkedMmappedFile.cpp:283-291 | writing into a mapped chunk is writing into the file |
| `ChunkedFiles.ChunkDivides` | src/storage/ChunkedMmappedFile.cpp:327-333 | chunk and place of an offset are quotient and remainder |
| `ChunkCache.FreeTile` | src/storage/CompressedMmappedFile.cpp:345-350 | whenever a position is open the free list is not empty |
| `ChunkCache.EvictOpens` | src/storage/CompressedMmappedFile.cpp:359-379 | giving up any chunk opens its position and returns its tile |
| `ChunkCache.PopulateCloses` | src/storage/CompressedMmappedFile.cpp:345-357 | filling an open position keeps every other resident chunk and restores the invariant |
| `ChunkCache.CompressedMmappedFile.ChunkData` | src/storage/CompressedMmappedFile.cpp:387-409 | a chunk yields its own bytes, whatever is evicted, and the invariant is kept |
| `ChunkCache.CompressedMmappedFile.Read` | src/storage/CompressedMmappedFile.cpp:418-441 | copies the clipped slice without the last chunk when the bytes end with it |
| `ChunkCache.ReadIsWhole` | src/storage/CompressedMmappedFile.cpp:438-440 | everything is copied exactly if the bytes lie in one chunk or do not end with a chunk |

## Left out

- External functions in operator trees: no function is registered, so a call becomes a node without items.
- Completions of operands that parsing gives up: only the lookups of the returned tree are completed.
- Node caches updated in place: `OpTreeEval` returns the evaluated tree as a value and stores it as the root.
- Item iterators as objects: `Iterators` passes them as values, so sharing and the copy before a change are not captured; the iterator over a fixed range is not modelled.
- An intersecting iterator over no iterators never ends in the source; it is not modelled.
- `hasFetchedNodes` of a lazy result, which is only written, progress callbacks, and stopping a conversion early.
- Conversion between global and cell-local item ids, and `items`, `cells` and `boundary` of eager results.
- The distribution of cells to threads in the parallel conversion: cells are processed in any order, one at a time.
- The other tokenizer (`OpTree.cpp`): its automaton is the same; only the complex tree's tokenizer is modelled.
- Digests, compression and the serialized headers: hashing is a function, unpacking gives the chunk, offset tables are exact.
- Restarting a thread pool after a stop, and the pool's `execute`.
- Integer wrap-around of ids, counters, offsets and announced sizes, except where a row says otherwise.
- `compare` with a 16-bit prefix length reads an uninitialised length in the source; `LcpSearch` passes it through.
- The default constructor of the bit writer leaves its buffer unset; only the one that takes data is modelled.
- Flushing a unary code twice, or putting behind a flush, writes the last chunk again; `BitStream` flushes once, at the end.
- Changing the cache size of a compressed file while it is open, and reading it from its end if that is a multiple of the chunk size.
- Merging offsets of sanitized tokens, character hints and the shortest spelling of a query.
- The absolute value of a difference of -2^31 is 2^31 in `RleStream`; in the source it overflows, which is undefined.
- When the bytes of a changed chunk reach the disk before it is unmapped: `ChunkedFiles` writes them when it is unmapped.
- IntersectingCells: for a rectangle or boundary whose minimum is above its maximum it only says what the comparisons of the coordinates give, as such a rectangle has no points.
- Words that QueryText writes have at least one character; an empty search string cannot be written.
- The number of slots that `removeEmpty` reserves for its copy.
