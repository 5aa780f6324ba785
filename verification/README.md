# Verified models of lighttpd's algorithms and of a shared-memory transfer

A Dafny model of the algorithmic core of the repository's copy of lighttpd 1.4.32
and of its semaphore example. `dafny verify dfyconfig.toml` checks all of it.

- **The LEMON parser generator and its driver** (`Grammar`, `FirstSets`, `FollowSets`, `ParserActions`,
  `ActTab`, `GeneratedTables`, `LrDriver`, `TreeBounds`, `EndlessParse`, `LrComplete`, `ParserPipeline`,
  `FindActions`, `SumParse`):
  nullable, FIRST and follow sets are exact fixpoints; conflict resolution, default compression and the
  overlay of all transactions in one table keep every decision, with the exact exception that fallbacks
  make; which action survives a conflict, and which loser is counted, follows from the precedences alone;
  the tables made from the automaton of a grammar give a parser that accepts only sentences of it, and,
  without conflicts and fallbacks, exactly those that have a parse tree for which the stack is deep
  enough; it comes to rest on every token unless a symbol of the grammar derives itself.
- **LEMON's list sort** (`SortSpec`, `ListSort`): a merge sort by relinking nodes that is stable, with the exact
  bound below which it loses nothing.
- **The caseless associative array** (`CaselessCompare`, `CaselessArray`, `Decimal`): the halving search is
  exact, any run of operations agrees with a map, and the numbers that serve as keys are written and read
  back in decimal.
- **Strings** (`PathSimplify`, `UrlCoding`): path simplification is a normal form computed in place;
  percent coding is a round trip.
- **Request bytes** (`ChunkQueue`, `ReadState`, `ChunkedCoding`): no octet is lost, doubled or reordered
  between the socket, the headers, the bodies and the pipelined rest; the chunked coding decodes to
  what was appended.
- **Memoised conditions** (`CondCache`), **streaming MD5** (`Md5Stream`), **event back ends**
  (`FdEvents`): a cache, an incremental digest and two data structures, each against its plain meaning.
- **The shared-memory transfer** (`ShmTransfer`): the steps of both processes, in every interleaving.

Arrays, linked nodes and objects that the C code updates are arrays and classes here, with loops where
the code has loops; each method is proved against a function or predicate whose own properties are the
lemmas beside it. Ghost fields hold what an object stands for.

Where the code and what is said about it differ, the model follows the code:

- `chunk.c:389` speaks of at most 4 chunks kept for reuse; the test keeps 5 (`ChunkQueue.KeptForReuse`).
- `connections.c:935` takes a buffer found empty for the last one. With two unused buffers in a row the
  second would stay (`ReadState.CleanedExact`); in the states the reader reaches there is at most one.
- `buffer.c:984-987` sets `used` to 3 for a path of spaces, whose text is one slash
  (`PathSimplify.PathSimplify`, `PathSimplify.BlankPath`).
- `lemon.c:3382` writes nsymbol + nrule + 2 into unused slots of the action table, where the driver's
  own number for "no action" has nstate in place of nsymbol; no lookup reads such a slot.
- `lemon.c:550` compares the mark -1 of a free slot with a lookahead: an offset is passed over when the slot
  before it is free (`ActTab.AcTab.FindOffset`, `ActTab.AcTab.FitPassedOver`). The table grows a little;
  no lookup changes.
- `lempar.c:578-579` ignores an end marker that comes first: the empty input is not accepted, whatever the
  grammar (`LrDriver.Parser.ParseAll`).
- `lempar.c:595-691` has no bound on its loop: with the tables of a grammar in which a symbol derives itself it
  may never end (`EndlessParse.ReducesForEver`); otherwise it always does (`LrDriver.ComesToRest`).
- `md5.c:152` compares 32-bit numbers: with a tail in the buffer and an input near 2^32 octets the loop
  would run on (`Md5Stream.GuardExact`).
- `lemon.c:1590-1594` overwrites the last bin when it is full: a list of 2^30 elements or more loses some
  (`SortSpec.MSortExact`).
- `configfile-glue.c:251-256` says that an else branch is executed only if all branches before it are false.
  It may be true while one of them is undecided (`CondCache.EarlyAnswerCanChange`); the comment holds
  exactly when their fields are known (`CondCache.ElseAfterFalse`), and the answer is final exactly when so
  are those of the branches before every block around it (`CondCache.TrueForGoodIff`).
- `configfile-glue.c:551-562` forgets the answers of one field. A branch that a true one of another field had
  made false is then open again (`CondCache.ItemResetExclusiveIff`), and the next question may make both true
  (`CondCache.TwoTrue`).
- `lempar.c:344-355` looks for a fallback token before it takes the default, but `lemon.c:3664-3672` turns
  reductions into the default: a token whose reduction became the default may be taken for its fallback
  (`GeneratedTables.FallbackBeforeDefault`, `GeneratedTables.GeneratorKeepsDecision`).
- `array.c:203-206` means to admit INT_MAX entries; with more than 2^30 the first move of the search up
  is no int (`CaselessArray.CArray.GetIndex`).
- `read.c:75-76` takes a write for complete. When it may be short, bytes are lost
  (`ShmTransfer.ShortWritesLose`, `ShmTransfer.BytesLost`).

## Model

| member | source | states |
|---|---|---|
| Grammar.DerivesIffTree | code/02app_develop/lighttpd-1.4.32/src/lemon.c:636-686 | a symbol rewrites to a sentential form if and only if a parse tree with that root has it as its leaves; the reference for nullable, FIRST and acceptance |
| FirstSets.FindLambda | code/02app_develop/lighttpd-1.4.32/src/lemon.c:651-665 | after the fixpoint loop `lambda` holds for a symbol if and only if it derives the empty string |
| FirstSets.SweepLambda | code/02app_develop/lighttpd-1.4.32/src/lemon.c:654-664 | one sweep marks only nullable symbols; it reports progress exactly when a new one was marked, and otherwise no rule can mark another |
| FirstSets.AddFirstOfRule | code/02app_develop/lighttpd-1.4.32/src/lemon.c:671-684 | what one rule adds is sound; no progress means the set is unchanged and closed under this rule |
| FirstSets.FindFirst | code/02app_develop/lighttpd-1.4.32/src/lemon.c:667-685 | a terminal is in the first set of a nonterminal if and only if the nonterminal derives a sentential form that starts with it |
| FirstSets.FindFirstSets | code/02app_develop/lighttpd-1.4.32/src/lemon.c:636-687 | both fixpoints together, from nothing, are exact and terminate |
| FirstSets.TreeBeginMarked | code/02app_develop/lighttpd-1.4.32/src/lemon.c:668-685 | sets closed under the rules contain the first leaf of every tree: completeness, whatever order the loop took |
| FollowSets.Propagate | code/02app_develop/lighttpd-1.4.32/src/lemon.c:899-907 | propagating one configuration keeps every element justified by a path of links, and either grows a set or leaves all sets as they were |
| FollowSets.Pass | code/02app_develop/lighttpd-1.4.32/src/lemon.c:896-909 | one pass over all configurations; progress strictly shrinks the set of missing pairs, and a pass without progress leaves everything propagated |
| FollowSets.FindFollowSets | code/02app_develop/lighttpd-1.4.32/src/lemon.c:881-912 | on exit a terminal is in the set of a configuration if and only if it was initially in the set of one that reaches it by links; the COMPLETE/INCOMPLETE marking terminates |
| FollowSets.FollowsIsLeast | code/02app_develop/lighttpd-1.4.32/src/lemon.c:894-911 | these sets are contained in every larger family closed along the links |
| ParserActions.ResolveConflict | code/02app_develop/lighttpd-1.4.32/src/lemon.c:1002-1057 | of two live actions on a lookahead exactly one is marked: without a precedence, or with the same one and no associativity, the later is a counted conflict; else the lower one loses, in a tie the reduction to a right-associative token and the shift to a left-associative one |
| ParserActions.CompareWithRest | code/02app_develop/lighttpd-1.4.32/src/lemon.c:966-970 | comparing one action with its group leaves the group decided or ready for the next action |
| ParserActions.ResolveAll | code/02app_develop/lighttpd-1.4.32/src/lemon.c:958-972 | after the pairwise pass an action is live if and only if it is the survivor of its group, and a conflict if and only if none of the precedences settles it against the survivor of those before it; the result counts the conflicts |
| ParserActions.ExactlyOneLive | code/02app_develop/lighttpd-1.4.32/src/lemon.c:958-972 | each (state, lookahead) group of shifts and reduces has exactly one live action |
| ParserActions.DeciderIsLive | code/02app_develop/lighttpd-1.4.32/src/lemon.c:958-972 | the survivor is one of the original actions of the group, unchanged |
| ParserActions.DeciderOutranks | code/02app_develop/lighttpd-1.4.32/src/lemon.c:1013-1043 | no reduction with a precedence in the group outranks the survivor |
| ParserActions.DeciderByPrecedence | code/02app_develop/lighttpd-1.4.32/src/lemon.c:1013-1043 | which action survives, from precedences and associativities alone: the shift unless some reduction has a higher precedence, or the same on a left-associative token; else the earliest reduction of the greatest precedence; without a shift the first reduction, if it has no precedence |
| ParserActions.ConflictsExact | code/02app_develop/lighttpd-1.4.32/src/lemon.c:1013-1043 | an action is counted as a conflict if and only if it, or what survives of those before it, has no precedence, or both have the same and the survivor is a reduction or a shift that does not associate |
| ParserActions.CountBest | code/02app_develop/lighttpd-1.4.32/src/lemon.c:3639-3656 | the nested counting loop, which skips rules already counted, finds the greatest number of reductions by one rule |
| ParserActions.CompressState | code/02app_develop/lighttpd-1.4.32/src/lemon.c:3634-3673 | the first reduction by the most frequent rule becomes the default and the others are dropped, if there are at least two |
| ParserActions.DefaultExact | code/02app_develop/lighttpd-1.4.32/src/lemon.c:3639-3662 | a state gets a default if and only if two of its reductions are by one rule, and then it is a rule by which most reduce |
| ParserActions.CompressKeeps | code/02app_develop/lighttpd-1.4.32/src/lemon.c:3628-3675 | lookup with fallback to the default gives the old action wherever one existed; only error entries may become the default reduction |
| ParserActions.SortKeepsLookup | code/02app_develop/lighttpd-1.4.32/src/lemon.c:3673 | sorting a state's actions again changes no lookup |
| ActTab.AcTab.Action | code/02app_develop/lighttpd-1.4.32/src/lemon.c:477-502 | an action is added to the transaction; least and greatest lookahead are kept |
| ActTab.AcTab.FindOffset | code/02app_develop/lighttpd-1.4.32/src/lemon.c:540-569 | the scan ends at the first offset where the transaction already stands alone, or fits into free slots that no other reader sees with no free slot before it; else at the end of the table |
| ActTab.AcTab.FitPassedOver | code/02app_develop/lighttpd-1.4.32/src/lemon.c:548-560 | an offset that fits and is passed over because the slot before it is free |
| ActTab.AcTab.Insert | code/02app_develop/lighttpd-1.4.32/src/lemon.c:510-585 | after any sequence of transactions every earlier one, and the new one, is read back exactly at its offset (the invariant kept by `Valid`) |
| ActTab.AcTab.SameAsPrior | code/02app_develop/lighttpd-1.4.32/src/lemon.c:554-567 | the slots compared and counted at an offset decide whether a prior transaction is the same: if and only if |
| ActTab.NoOtherAnswers | code/02app_develop/lighttpd-1.4.32/src/lemon.c:560-566 | a reader at the offset sees exactly these actions if and only if as many slots answer as there are actions |
| ActTab.OverlayReads | code/02app_develop/lighttpd-1.4.32/src/lemon.c:570-576 | a transaction written at a suitable offset is found there and every other lookahead is rejected |
| ActTab.OverlayKeeps | code/02app_develop/lighttpd-1.4.32/src/lemon.c:570-576 | a later insertion never disturbs an earlier transaction |
| ActTab.SharedOffsetSameActions | code/02app_develop/lighttpd-1.4.32/src/lemon.c:554-568 | two transactions share an offset only if they are the same set of actions |
| ActTab.AgreesIff | code/02app_develop/lighttpd-1.4.32/src/lempar.c:338-365 | what a reader finds by offset plus lookahead agrees with the simple map if and only if the actions are in their slots and no other slot answers |
| GeneratedTables.EntriesFind | code/02app_develop/lighttpd-1.4.32/src/lemon.c:2793-2806 | the transaction of a state maps a symbol to the number of its live action |
| GeneratedTables.InsertAll | code/02app_develop/lighttpd-1.4.32/src/lemon.c:3346-3373 | all non-empty transactions are inserted, in any order of decreasing size, and their offsets recorded with the least one |
| GeneratedTables.EntryKept | code/02app_develop/lighttpd-1.4.32/src/lemon.c:3346-3373 | a token has an entry of its own in the tables if and only if the state has an action on it, and it is that action |
| GeneratedTables.GotoKept | code/02app_develop/lighttpd-1.4.32/src/lempar.c:375-389 | for a nonterminal the tables give the state's action, or the default |
| GeneratedTables.TokenFaithful | code/02app_develop/lighttpd-1.4.32/src/lempar.c:326-360 | whatever the fallbacks of a token, the driver finds the action of the first token of its fallback chain that has one in the state, else the default |
| GeneratedTables.ReportTable | code/02app_develop/lighttpd-1.4.32/src/lemon.c:3309-3466 | the tables written out hold, for every state, the default, an entry for exactly the tokens that have an action, and the gotos of all nonterminals |
| GeneratedTables.GeneratorFindsToken | code/02app_develop/lighttpd-1.4.32/src/lempar.c:326-360 | from unresolved actions to the generated lookup: the driver finds the survivor on the first token of the fallback chain that has one other than the default reduction, else the default or an error |
| GeneratedTables.GeneratorKeepsDecision | code/02app_develop/lighttpd-1.4.32/src/lempar.c:343-360 | where a state had actions on a token, the driver finds the survivor of their conflicts if and only if that is not the default reduction or no fallback of the token has an entry |
| GeneratedTables.FallbackBeforeDefault | code/02app_develop/lighttpd-1.4.32/src/lempar.c:343-355 | the case where it does not: three actions, a default made of two of them, and a fallback token that is shifted |
| GeneratedTables.GeneratorKeepsGoto | code/02app_develop/lighttpd-1.4.32/src/lempar.c:375-389 | where a state had an action on a nonterminal, the driver finds it |
| GeneratedTables.GeneratorAddsOnlyDefaults | code/02app_develop/lighttpd-1.4.32/src/lemon.c:3628-3675 | where no token of the fallback chain had an action the driver finds an error or the most frequent reduction of the state |
| ParserPipeline.SortedCollected | code/02app_develop/lighttpd-1.4.32/src/lemon.c:380-402 | sorting the actions of a state, collected in any order, keeps them all and puts them in the order that the pairwise pass needs |
| ParserPipeline.ProcessState | code/02app_develop/lighttpd-1.4.32/src/lemon.c:955-972 | the actions of one state, sorted by lookahead, kind and rule, resolved and compressed, are what the lookup theorems assume; none is added or lost, and what is looked up in the result is what the precedences leave of them, or a default reduction where there was none |
| ParserPipeline.SortedAxsetsOrdered | code/02app_develop/lighttpd-1.4.32/src/lemon.c:3188-3192 | sorting all transactions by size lists each of them once, the largest first |
| ParserPipeline.DefaultReduces | code/02app_develop/lighttpd-1.4.32/src/lemon.c:3658-3673 | the default of a state reduces a complete item, and never a rule of the start symbol |
| ParserPipeline.GeneratedTablesAreLr | code/02app_develop/lighttpd-1.4.32/src/lemon.c:3309-3466 | if the actions of each state are the moves of its item set, reductions of complete items and the acceptance, the tables meet every condition under which the driver is sound |
| ParserPipeline.Generate | code/02app_develop/lighttpd-1.4.32/src/lemon.c:3309-3466 | from the collected actions of all states to tables that meet these conditions and hold, for every state, what these precedences leave of the same actions, put in order |
| FindActions.StartFollows | code/02app_develop/lighttpd-1.4.32/src/lemon.c:881-912 | with the start symbol on no right-hand side, the follow set of a start rule holds nothing but the end marker |
| FindActions.AddReductions | code/02app_develop/lighttpd-1.4.32/src/lemon.c:930-945 | a complete item is reduced on exactly the terminals of its follow set |
| FindActions.StateActions | code/02app_develop/lighttpd-1.4.32/src/lemon.c:918-956 | the actions of a state are its moves, the reductions of its complete items on what follows them, and the acceptance in the first state; they are what sorting and conflict resolution expect |
| FindActions.FindActions | code/02app_develop/lighttpd-1.4.32/src/lemon.c:881-956 | follow sets, then the actions of all states: exactly the moves, the reductions of complete items on what follows them, and the acceptance |
| FindActions.DecisionFound | code/02app_develop/lighttpd-1.4.32/src/lempar.c:326-389 | on every symbol on which a state has actions, the lookup in the generated tables gives the one that conflict resolution leaves |
| FindActions.GeneratedTablesComplete | code/02app_develop/lighttpd-1.4.32/src/lemon.c:918-972 | if closures, first sets and links miss nothing and no state may do two things on one symbol, the tables have every move, every reduction on what may follow, and the acceptance |
| FindActions.VerdictExact | code/02app_develop/lighttpd-1.4.32/src/lempar.c:564-693 | with such tables the machine accepts a non-empty input if and only if it has a tree that fits on the stack |
| FindActions.GenerateAndParse | code/02app_develop/lighttpd-1.4.32/src/lempar.c:564-693 | a parser made from the item sets of a grammar accepts only sentences of it, tokens standing for themselves or their fallbacks, and comes to a verdict unless some symbol derives itself; without conflicts and fallbacks it accepts an input if and only if that has a parse tree for which the stack is deep enough; with conflicts its tables hold what the precedences leave of the actions of each state |
| LrDriver.Tables.ShiftActionCases | code/02app_develop/lighttpd-1.4.32/src/lempar.c:326-365 | the action found for a token is the entry of the token or one of its fallbacks, or the default |
| LrDriver.Tables.FallbackBeforeDefault | code/02app_develop/lighttpd-1.4.32/src/lempar.c:333-360 | a token with an entry gets that; without one its fallback is tried before the default of the state |
| LrDriver.ItemSpelled | code/02app_develop/lighttpd-1.4.32/src/lempar.c:460-483 | on every table path the symbols before the mark of an item are the top of the stack, and the item started in the state below them |
| LrDriver.Parser.Shift | code/02app_develop/lighttpd-1.4.32/src/lempar.c:395-428 | pushes an entry, or empties the stack when it is full |
| LrDriver.Parser.Pop | code/02app_develop/lighttpd-1.4.32/src/lempar.c:478-483 | the right-hand side of a complete rule is on the stack above the bottom entry; the trees popped become one node |
| LrDriver.Parser.Reduce | code/02app_develop/lighttpd-1.4.32/src/lempar.c:450-489 | a reduction keeps the stack a path of the automaton with a parse tree for each symbol, and accepts only for the start symbol |
| LrDriver.Parser.AcceptSound | code/02app_develop/lighttpd-1.4.32/src/lempar.c:484-488 | at acceptance the tokens consumed are derivable from the start symbol |
| LrDriver.Parser.Act | code/02app_develop/lighttpd-1.4.32/src/lempar.c:595-691 | one turn of the loop is one step of a stack machine on states: shift, reduction with its goto, acceptance, syntax error or overflow |
| LrDriver.SettleExact | code/02app_develop/lighttpd-1.4.32/src/lempar.c:595-691 | the loop over one token comes to rest if and only if it does within as many actions as there are stacks of states; what it comes to does not depend on the number of actions allowed |
| TreeBounds.HeightBound | code/02app_develop/lighttpd-1.4.32/src/lempar.c:450-489 | in a grammar in which no symbol derives itself, a parse tree over n leaves has at most (n + 1) times as many nodes on a way down as there are symbols |
| TreeBounds.StackBounded | code/02app_develop/lighttpd-1.4.32/src/lempar.c:450-489 | so the trees that a stack carries over its tokens are bounded |
| TreeBounds.RankedIsAcyclic | code/02app_develop/lighttpd-1.4.32/src/lempar.c:595-691 | no symbol derives itself if no rule is empty and every rule of one symbol leads to one of lesser rank |
| LrDriver.ComesToRest | code/02app_develop/lighttpd-1.4.32/src/lempar.c:595-691 | every reduction adds a node over the same leaves: in such a grammar the driver comes to rest on every token, from every stack |
| LrDriver.Parser.Parse | code/02app_develop/lighttpd-1.4.32/src/lempar.c:564-693 | one call runs the stack machine on its token; it does not return if and only if that machine never comes to rest, and always does when no symbol of the grammar derives itself; acceptance is reached only on the end marker with a derivable input |
| EndlessParse.LoopSurvives | code/02app_develop/lighttpd-1.4.32/src/lemon.c:1002-1057 | of the reductions of a cyclic grammar on the end marker the generator keeps the one declared first |
| EndlessParse.ReducesForEver | code/02app_develop/lighttpd-1.4.32/src/lempar.c:595-691 | with the tables of that grammar the driver reads a token and then reduces for ever, however deep its stack may be |
| LrComplete.ForestStarts | code/02app_develop/lighttpd-1.4.32/src/lemon.c:1190-1205 | the first leaf of what stands behind a mark is a terminal that begins it, or all of it is nullable |
| LrComplete.DriveTree | code/02app_develop/lighttpd-1.4.32/src/lempar.c:595-691 | with complete tables, before what may follow, the machine goes over the root of every parse tree whose leaves come next, or runs out of stack, exactly as the tree needs entries |
| LrComplete.SentenceVerdict | code/02app_develop/lighttpd-1.4.32/src/lempar.c:564-693 | with complete tables every sentence is accepted if its tree fits on the stack, and refused if not |
| LrComplete.LastReduction | code/02app_develop/lighttpd-1.4.32/src/lempar.c:450-489 | with the right-hand side of a start rule on the stack the end marker is accepted |
| SumParse.SumsFit | code/02app_develop/lighttpd-1.4.32/src/lempar.c:395-428 | in a left-recursive grammar of sums every sentence, however long, has a tree for which four entries are enough |
| SumParse.ParseSum | code/02app_develop/lighttpd-1.4.32/src/lempar.c:564-693 | the parser generated for that grammar accepts every sum, whatever the precedences |
| LrDriver.Parser.ParseAll | code/02app_develop/lighttpd-1.4.32/src/lempar.c:564-693 | a run over a whole input gives the verdict of the stack machine; an accepted input is a sentence of the grammar, tokens standing for themselves or their fallbacks; there is a verdict whenever no symbol derives itself |
| SortSpec.MergeSorts | code/02app_develop/lighttpd-1.4.32/src/lemon.c:1523-1552 | merging a newer sorted list into an older one is a stable sort of the older followed by the newer |
| SortSpec.CarryRepresents | code/02app_develop/lighttpd-1.4.32/src/lemon.c:1587-1595 | putting one element into the bins keeps each bin a stable sort of consecutive elements, older ones in higher bins |
| SortSpec.BinsFullOrEmpty | code/02app_develop/lighttpd-1.4.32/src/lemon.c:1583-1596 | at every point bin i is empty or holds exactly 2^i nodes |
| SortSpec.MSortSortsRetained | code/02app_develop/lighttpd-1.4.32/src/lemon.c:1575-1600 | the result is a stable sort of the last elements of the list, as many as the bins retain |
| SortSpec.MSortExact | code/02app_develop/lighttpd-1.4.32/src/lemon.c:1575-1600 | the result is a stable sort, and a permutation, of its whole input if and only if the input has fewer than 2^LISTSIZE elements |
| ListSort.Merge | code/02app_develop/lighttpd-1.4.32/src/lemon.c:1523-1552 | relinking two lists gives one list with the merged data and only nodes of the two |
| ListSort.CarryUp | code/02app_develop/lighttpd-1.4.32/src/lemon.c:1589-1595 | a node carried up through full bins; the bins stay separate, properly ended lists |
| ListSort.CollectBins | code/02app_develop/lighttpd-1.4.32/src/lemon.c:1597-1598 | the bins are merged into one list |
| ListSort.MSortList | code/02app_develop/lighttpd-1.4.32/src/lemon.c:1575-1600 | the sort of a linked list, by relinking, carries exactly what the functional sort computes |
| ListSort.SortsExactly | code/02app_develop/lighttpd-1.4.32/src/lemon.c:1574-1600 | with its thirty bins the sort orders a list and loses nothing if and only if the list has fewer than 2^30 members |
| CaselessCompare.Compare | code/02app_develop/lighttpd-1.4.32/src/buffer.c:541-587 | with or without the word-wise skip the result is the comparison by the first difference in lower case, then by length |
| CaselessCompare.CmpZero | code/02app_develop/lighttpd-1.4.32/src/buffer.c:563-587 | two keys compare equal if and only if they are equal up to case |
| CaselessCompare.CmpFirstDifference | code/02app_develop/lighttpd-1.4.32/src/buffer.c:563-587 | the first difference in lower case decides, else the difference in length |
| CaselessCompare.CmpTransitive | code/02app_develop/lighttpd-1.4.32/src/buffer.c:563-587 | the comparison is transitive |
| CaselessCompare.CmpAntisymmetric | code/02app_develop/lighttpd-1.4.32/src/buffer.c:563-587 | the comparison changes sign when the keys are exchanged |
| CaselessArray.RangeUp | code/02app_develop/lighttpd-1.4.32/src/array.c:91-112 | after a step up from a position before the key, also one left of the index, the key is still in the halved range |
| CaselessArray.RangeDown | code/02app_develop/lighttpd-1.4.32/src/array.c:91-112 | the same for a step down |
| CaselessArray.CArray.GetIndex | code/02app_develop/lighttpd-1.4.32/src/array.c:84-117 | an index is returned if and only if a caselessly equal key is present, otherwise `pos` in [-1, used] separates smaller from greater keys; positions are ints if and only if the stored power is below 2^31 or the first probe does not move up |
| CaselessArray.CArray.GetElement | code/02app_develop/lighttpd-1.4.32/src/array.c:119-129 | the element that a map from folded keys holds, or none |
| CaselessArray.GapBelongs | code/02app_develop/lighttpd-1.4.32/src/array.c:230-234 | from where the search ended, the comparison says where the key belongs |
| CaselessArray.EnterIndex | code/02app_develop/lighttpd-1.4.32/src/array.c:230-244 | entering an element there keeps the index a permutation of 0..used-1 with strictly increasing keys |
| CaselessArray.CArray.InsertUnique | code/02app_develop/lighttpd-1.4.32/src/array.c:181-249 | a new key is added, an equal key of the same type merged by insert_dup, one of another type aborts; nothing is added beyond INT_MAX elements, or if the search would need a position that is no int; the stored power of two grows exactly when it is reached |
| CaselessArray.InsertionExact | code/02app_develop/lighttpd-1.4.32/src/array.c:181-249 | what an insertion makes of the map: it fails only if the types clash; one key is added, or keeps its element with the two values merged, the old one first |
| CaselessArray.KeyedByNumber | code/02app_develop/lighttpd-1.4.32/src/array.c:185-188 | an element without a key of its own is stored under the digits of the next number, any other under its own key |
| CaselessArray.NumberedOnce | code/02app_develop/lighttpd-1.4.32/src/array.c:185-188 | over a run no two elements are given the same number for a key, also up to case |
| Decimal.DigitsRead | code/02app_develop/lighttpd-1.4.32/src/buffer.c:298-304 | decimal digits read back as the number, without a zero in front |
| Decimal.LtoStr | code/02app_develop/lighttpd-1.4.32/src/buffer.c:287-317 | the digits, written from the lowest up and reversed in place, are the text of the number, with its sign and a terminating zero; nothing behind it is touched |
| Decimal.TextRead | code/02app_develop/lighttpd-1.4.32/src/buffer.c:287-317 | the text of a number, with its sign, reads back as that number |
| CaselessArray.CArray.Replace | code/02app_develop/lighttpd-1.4.32/src/array.c:168-179 | the old element is returned and replaced, or the new one inserted |
| CaselessArray.CArray.GetUnusedElement | code/02app_develop/lighttpd-1.4.32/src/array.c:131-149 | a retained element of the type is handed out if there is one; the slot for the next insertion becomes empty; nothing is lost or doubled |
| CaselessArray.CArray.Reset | code/02app_develop/lighttpd-1.4.32/src/array.c:59-70 | the array stands for the empty map; its elements are retained, each with an empty key and its value reset |
| CaselessArray.CArray.Run | code/02app_develop/lighttpd-1.4.32/src/array.c:59-249 | any run of insert, replace, get-unused and reset, of any length, agrees with a map from folded keys |
| CaselessArray.ItemsCounted | code/02app_develop/lighttpd-1.4.32/src/array.c:181-249 | there are as many elements in use as keys |
| PathSimplify.PathSimplify | code/02app_develop/lighttpd-1.4.32/src/buffer.c:940-1027 | in place or not, the buffer holds the normal form of the path if it has a character that is no space; otherwise `used` is one too large |
| PathSimplify.RenderSplit | code/02app_develop/lighttpd-1.4.32/src/buffer.c:987-1027 | splitting a path at slashes loses nothing |
| PathSimplify.SplitRender | code/02app_develop/lighttpd-1.4.32/src/buffer.c:987-1027 | rendered segments without slashes are found again |
| PathSimplify.SimplifyShape | code/02app_develop/lighttpd-1.4.32/src/buffer.c:929-938 | the result starts with a slash and has no empty, "." or ".." segment, except a final empty one |
| PathSimplify.SimplifyIdempotent | code/02app_develop/lighttpd-1.4.32/src/buffer.c:929-938 | simplifying twice changes nothing |
| PathSimplify.FixedIffClean | code/02app_develop/lighttpd-1.4.32/src/buffer.c:929-938 | a path is left as it is if and only if it is already of that shape |
| PathSimplify.DotsTakeBack | code/02app_develop/lighttpd-1.4.32/src/buffer.c:992-1002 | two dots take away the ordinary segment before them, wherever they stand |
| PathSimplify.DotsAtRoot | code/02app_develop/lighttpd-1.4.32/src/buffer.c:992-1002 | two dots at the root are dropped |
| PathSimplify.DotDropped | code/02app_develop/lighttpd-1.4.32/src/buffer.c:1003-1007 | one dot and nothing are dropped, wherever they stand |
| PathSimplify.EndsInSlash | code/02app_develop/lighttpd-1.4.32/src/buffer.c:990-1010 | the result ends in a slash if and only if the last segment has no, one or two dots and nothing else |
| PathSimplify.TokenTests | code/02app_develop/lighttpd-1.4.32/src/buffer.c:990-1012 | the tests on the token length and the last two (signed, 16-bit) characters recognise exactly "." and ".." |
| PathSimplify.EndsUp | code/02app_develop/lighttpd-1.4.32/src/buffer.c:991-1002 | ".." takes the output back to the slash of the segment before |
| PathSimplify.BlankPath | code/02app_develop/lighttpd-1.4.32/src/buffer.c:966-987 | for a path of spaces the normal form is one character long, where the code counts two |
| UrlCoding.Hex2IntExact | code/02app_develop/lighttpd-1.4.32/src/buffer.c:394-404 | hex2int, with its wrap-arounds of unsigned char, gives the value of a hexadecimal digit and 0xFF for every other character |
| UrlCoding.Buffer.CountEncoded | code/02app_develop/lighttpd-1.4.32/src/buffer.c:809-833 | the first pass counts exactly what the encoding takes |
| UrlCoding.Buffer.AppendStringEncoded | code/02app_develop/lighttpd-1.4.32/src/buffer.c:767-871 | the encoded string is appended within the room counted, for all six encodings |
| UrlCoding.Buffer.PrepareAppend | code/02app_develop/lighttpd-1.4.32/src/buffer.c:101-122 | there is room for the bytes asked for, also in a buffer that had none, and the content stays |
| UrlCoding.Buffer.UrlDecode | code/02app_develop/lighttpd-1.4.32/src/buffer.c:878-919 | decoding in place computes the decoded string up to the first zero; the write position never passes the read position |
| UrlCoding.RoundTrip | code/02app_develop/lighttpd-1.4.32/src/buffer.c:767-919 | decoding, path or query, what either relative-URI encoding produced gives the string with bytes below 32 and byte 127 replaced by an underscore |
| UrlCoding.RoundTripExact | code/02app_develop/lighttpd-1.4.32/src/buffer.c:767-919 | the string comes back unchanged if and only if it has no such byte |
| UrlCoding.MarkedExact | code/02app_develop/lighttpd-1.4.32/src/buffer.c:632-763 | the characters that each of the six tables leaves as they are |
| UrlCoding.DecodePlain | code/02app_develop/lighttpd-1.4.32/src/buffer.c:888-912 | without percent signs every byte is kept, but for a plus in a query, which is a space |
| UrlCoding.DecodePercent | code/02app_develop/lighttpd-1.4.32/src/buffer.c:891-906 | a percent sign before two hexadecimal digits is read as their byte, a control byte as an underscore; before anything else it stands for itself |
| UrlCoding.HexReadBack | code/02app_develop/lighttpd-1.4.32/src/buffer.c:849-852 | the hexadecimal digits read back as the string |
| UrlCoding.ReferencesReadBack | code/02app_develop/lighttpd-1.4.32/src/buffer.c:840-848 | the character references of the two markup encodings read back as the string |
| UrlCoding.NoMarkup | code/02app_develop/lighttpd-1.4.32/src/buffer.c:677-719 | encoded text has no tag delimiters and no control bytes |
| UrlCoding.LinesGoOn | code/02app_develop/lighttpd-1.4.32/src/buffer.c:853-856 | in an encoded header every newline is followed by a tab |
| UrlCoding.EncodedHasNoZero | code/02app_develop/lighttpd-1.4.32/src/buffer.c:767-871 | a relative-URI encoding has no zero byte, so decoding reads all of it |
| UrlCoding.EncodeAndDecode | code/02app_develop/lighttpd-1.4.32/src/buffer.c:767-919 | the round trip in one buffer: append encoded, decode in place |
| ChunkQueue.LengthIsWrittenAndRest | code/02app_develop/lighttpd-1.4.32/src/chunk.c:323-359 | length is what has been sent and what is unsent |
| ChunkQueue.KeptForReuse | code/02app_develop/lighttpd-1.4.32/src/chunk.c:389-397 | up to five chunks are kept for reuse |
| ChunkQueue.Queue.GetUnusedChunk | code/02app_develop/lighttpd-1.4.32/src/chunk.c:99-114 | the top of the reuse stack, or a new chunk; the counter is the size of the stack |
| ChunkQueue.Queue.AddMem | code/02app_develop/lighttpd-1.4.32/src/chunk.c:211-268 | a recycled chunk with the new buffer stands at one end; the unsent octets grow by its text there |
| ChunkQueue.Queue.AppendMem | code/02app_develop/lighttpd-1.4.32/src/chunk.c:227-240 | the octets, without the terminating zero, are appended |
| ChunkQueue.Queue.AddBuffer | code/02app_develop/lighttpd-1.4.32/src/chunk.c:182-225 | an unused buffer adds nothing, any other its text |
| ChunkQueue.Queue.AppendFile | code/02app_develop/lighttpd-1.4.32/src/chunk.c:163-180 | a part of a file is appended, unless it is empty |
| ChunkQueue.Queue.GetAppendTempfile | code/02app_develop/lighttpd-1.4.32/src/chunk.c:278-320 | an empty temporary file is appended, open if it could be created |
| ChunkQueue.Queue.RemoveFinished | code/02app_develop/lighttpd-1.4.32/src/chunk.c:365-399 | exactly the finished chunks at the front go, no unsent octet does |
| ChunkQueue.Queue.Reset | code/02app_develop/lighttpd-1.4.32/src/chunk.c:140-161 | everything is taken off; the counters are zero |
| ChunkQueue.Queue.Length | code/02app_develop/lighttpd-1.4.32/src/chunk.c:323-341 | the sum of the lengths of all chunks |
| ChunkQueue.Queue.Written | code/02app_develop/lighttpd-1.4.32/src/chunk.c:343-359 | the sum of all offsets |
| ReadState.CleanedKeepsBytes | code/02app_develop/lighttpd-1.4.32/src/connections.c:917-953 | removing unused buffers changes no octet |
| ReadState.CleanedExact | code/02app_develop/lighttpd-1.4.32/src/connections.c:917-953 | no unused buffer is left if and only if, after the leading ones, no two of them follow each other |
| ReadState.CleanedBuffers | code/02app_develop/lighttpd-1.4.32/src/connections.c:917-953 | when only the last buffer may be unused, none is left |
| ReadState.FindHeaderEnd | code/02app_develop/lighttpd-1.4.32/src/connections.c:971-1013 | for every division into chunks the nested search finds the first CRLFCRLF of the concatenated unsent octets, or there is none |
| ReadState.EndsAtExact | code/02app_develop/lighttpd-1.4.32/src/connections.c:983-1005 | a header end is carriage return, newline, carriage return, newline |
| ReadState.MatchFrom | code/02app_develop/lighttpd-1.4.32/src/connections.c:983-1005 | the inner loops decide whether a header end starts at a carriage return, across any number of chunks |
| ReadState.Connection.HandleRead | code/02app_develop/lighttpd-1.4.32/src/connections.c:332-412 | what is received is appended to the unsent octets, in the last buffer or a new one |
| ReadState.Connection.CleanUp | code/02app_develop/lighttpd-1.4.32/src/connections.c:917-953 | the removal loop computes the cleaned list; every chunk is then in the queue or on the stack of unused ones |
| ReadState.Connection.CopyHeader | code/02app_develop/lighttpd-1.4.32/src/connections.c:1017-1042 | the header copied out and the octets that the offsets leave are together the octets before |
| ReadState.Connection.ReadHeader | code/02app_develop/lighttpd-1.4.32/src/connections.c:961-1051 | the request is the prefix up to the first header end, the rest stays; without one, status 414 if and only if the queue holds more than 64 KB |
| ReadState.Connection.StoreInFile | code/02app_develop/lighttpd-1.4.32/src/connections.c:1066-1145 | octets are appended to a temporary file, or nothing is when creating or writing fails |
| ReadState.Connection.ReadBody | code/02app_develop/lighttpd-1.4.32/src/connections.c:1052-1173 | octets move from one queue to the other, none lost; the state moves on with exactly content_length octets, or with status 413 |
| ReadState.Connection.HandleReadState | code/02app_develop/lighttpd-1.4.32/src/connections.c:900-1187 | one call of the reader keeps the octets received in order: a header is found if and only if there is one, refused with 414 if and only if there is none and the queue holds more than 64 KB; a body is complete, waits, or is refused with 413 only if a disk fails; keep-alive ends exactly with a refusal |
| ReadState.Connection.EndRequest | code/02app_develop/lighttpd-1.4.32/src/connections.c:1418-1437 | after the header the body is read, if one is announced |
| ReadState.Connection.NextRequest | code/02app_develop/lighttpd-1.4.32/src/connections.c:856-865 | a completed message, of exactly the announced length, joins the log |
| ReadState.MessagesDetermined | code/02app_develop/lighttpd-1.4.32/src/connections.c:971-1173 | a stream has only one division into messages |
| ReadState.Connection.Advance | code/02app_develop/lighttpd-1.4.32/src/connections.c:1393-1440 | header, body and next request follow each other until the reader can do no more, or the connection has ended |
| ReadState.Run | code/02app_develop/lighttpd-1.4.32/src/connections.c:1380-1440 | over a whole connection, what arrived is the messages read, in order, and a rest; while it waits the rest holds no whole message; it ends early only if the peer closes, a read or a disk fails, or more than 64 KB have come without a header end |
| ReadState.DivisionUnique | code/02app_develop/lighttpd-1.4.32/src/connections.c:971-1173 | a stream is divided in one way into messages and a rest that holds none |
| ReadState.SameOctetsSameLog | code/02app_develop/lighttpd-1.4.32/src/connections.c:1380-1440 | connections that wait after the same octets have read the same messages, however these arrived |
| ReadState.SameOctetsSameMessages | code/02app_develop/lighttpd-1.4.32/src/connections.c:900-1187 | at any time, of two connections that received the same octets one has read the first messages of the other |
| ChunkedCoding.SizeIsLength | code/02app_develop/lighttpd-1.4.32/src/http_chunk.c:29-46 | the size line stands for the length modulo 2^32, so for the length if and only if it is below 2^32 |
| ChunkedCoding.WriteDigits | code/02app_develop/lighttpd-1.4.32/src/http_chunk.c:38-43 | the loop from the last digit to the first writes the low digits of the length |
| ChunkedCoding.DecodeFrame | code/02app_develop/lighttpd-1.4.32/src/http_chunk.c:94-120 | a chunk with data of admissible length is decoded as that data |
| ChunkedCoding.DecodeZero | code/02app_develop/lighttpd-1.4.32/src/http_chunk.c:101-107 | a chunk without data ends the body, whatever follows |
| ChunkedCoding.RoundTrip | code/02app_develop/lighttpd-1.4.32/src/http_chunk.c:23-121 | chunks of admissible lengths and the zero-length chunk decode to what they carry, with nothing left over |
| ChunkedCoding.AdmissibleExact | code/02app_develop/lighttpd-1.4.32/src/http_chunk.c:23-121 | one payload and the end are read back if and only if the payload is not empty and shorter than 2^32 |
| ChunkedCoding.Response.AppendMem | code/02app_develop/lighttpd-1.4.32/src/http_chunk.c:94-121 | the octets appended to the write queue, with and without chunking, and at the end |
| ChunkedCoding.Response.AppendBuffer | code/02app_develop/lighttpd-1.4.32/src/http_chunk.c:74-92 | the same for a buffer; an unused one leaves a size line for 2^32 - 1 |
| ChunkedCoding.Response.AppendFile | code/02app_develop/lighttpd-1.4.32/src/http_chunk.c:54-72 | the same for a file; an empty part leaves a size line alone |
| ChunkedCoding.Response.Send | code/02app_develop/lighttpd-1.4.32/src/http_chunk.c:23-121 | after any items with data and the end, the queue decodes to the concatenated data |
| CondCache.Cache.CheckNocache | code/02app_develop/lighttpd-1.4.32/src/configfile-glue.c:223-280 | the answer found from the parent, the earlier branches and the block's own test is the meaning of the block |
| CondCache.Cache.CheckCached | code/02app_develop/lighttpd-1.4.32/src/configfile-glue.c:511-546 | memoised answers are right for the fields known since the last reset, and the cache never has two true branches of a chain |
| CondCache.Cache.Store | code/02app_develop/lighttpd-1.4.32/src/configfile-glue.c:515-526 | a true answer makes all later branches false and touches nothing else |
| CondCache.Cache.CheckAll | code/02app_develop/lighttpd-1.4.32/src/configfile-glue.c:511-546 | with all fields known, in any order and repetition of queries, a block is true if and only if its parents hold, the earlier branches do not, and its test does |
| CondCache.Cache.Reset | code/02app_develop/lighttpd-1.4.32/src/configfile-glue.c:567-575 | all answers and fields are forgotten |
| CondCache.MeaningIsHolds | code/02app_develop/lighttpd-1.4.32/src/configfile-glue.c:223-280 | with all fields known the three-valued meaning is the plain one |
| CondCache.HoldsExact | code/02app_develop/lighttpd-1.4.32/src/configfile-glue.c:223-280 | inside a block that holds, a branch holds if and only if its test succeeds and those of all earlier branches fail |
| CondCache.SteadyFrom | code/02app_develop/lighttpd-1.4.32/src/configfile-glue.c:511-575 | from a reset on, while fields become known and then only questions are asked, the stretch is steady: every answer in it is the meaning |
| CondCache.StoredExclusive | code/02app_develop/lighttpd-1.4.32/src/configfile-glue.c:515-526 | storing an answer keeps this |
| CondCache.Run | code/02app_develop/lighttpd-1.4.32/src/configfile-glue.c:511-575 | in every state of every run at most one branch of a chain is true, as long as no reset of a single field has torn a chain since all answers were forgotten; an answer is the meaning of the block if since then no field became known after the first question and no single one was reset; what each operation does to the cache, whatever it holds, is exact |
| CondCache.ElseAfterFalse | code/02app_develop/lighttpd-1.4.32/src/configfile-glue.c:251-276 | when an else branch is true all branches before it are false, if and only if all their fields are known |
| CondCache.FalseStays | code/02app_develop/lighttpd-1.4.32/src/configfile-glue.c:234-280 | as fields become known a decided block stays decided, and a false one false |
| CondCache.TrueForGoodIff | code/02app_develop/lighttpd-1.4.32/src/configfile-glue.c:234-280 | a true answer outlasts every outcome of the unknown tests if and only if the fields of the branches before the block, and before all blocks around it, are known |
| CondCache.Cache.ResetItem | code/02app_develop/lighttpd-1.4.32/src/configfile-glue.c:551-562 | exactly the answers noted for one field are forgotten |
| CondCache.ItemResetExclusiveIff | code/02app_develop/lighttpd-1.4.32/src/configfile-glue.c:551-562 | after that a true branch still has only false ones after it, if and only if no answer was forgotten that a true branch of another field had made false |
| CondCache.StoredQueried | code/02app_develop/lighttpd-1.4.32/src/configfile-glue.c:223-526 | what a question does to any cache, also a torn one: a block without an answer becomes true exactly if its parent is true, no earlier branch has become true, its field is known and its test holds |
| CondCache.TwoTrue | code/02app_develop/lighttpd-1.4.32/src/configfile-glue.c:511-562 | a run of questions, with a reset of one field, after which two branches of a chain are true |
| Md5Stream.Context.Update | code/02app_develop/lighttpd-1.4.32/src/md5.c:128-165 | after each update `state` is the fold over the whole blocks, `buffer` holds the tail and `count` the bit length modulo 2^64 |
| Md5Stream.Context.Blocks | code/02app_develop/lighttpd-1.4.32/src/md5.c:145-156 | the loop transforms exactly the whole blocks |
| Md5Stream.GuardExact | code/02app_develop/lighttpd-1.4.32/src/md5.c:152 | the 32-bit guard of the loop ends it in the right place if and only if the tail and the input together are shorter than 2^32 |
| Md5Stream.CountedIsSum | code/02app_develop/lighttpd-1.4.32/src/md5.c:137-142 | the carry between the two words of the count is right |
| Md5Stream.Context.Final | code/02app_develop/lighttpd-1.4.32/src/md5.c:169-195 | the digest is that of the padded message; the context is cleared |
| Md5Stream.PaddedShape | code/02app_develop/lighttpd-1.4.32/src/md5.c:174-183 | the padding is a one bit, the fewest zero bits and eight octets that, read low-order octet first, are the length in bits modulo 2^64 |
| Md5Stream.PaddedUnique | code/02app_develop/lighttpd-1.4.32/src/md5.c:174-183 | no other sequence has that shape |
| Md5Stream.InitialOctets | code/02app_develop/lighttpd-1.4.32/src/md5.c:113-122 | the initial state in octets, as RFC 1321 gives it |
| Md5Stream.Encode | code/02app_develop/lighttpd-1.4.32/src/md5.c:289-299 | words are written with the low-order octet first |
| Md5Stream.Decode | code/02app_develop/lighttpd-1.4.32/src/md5.c:304-311 | reading words undoes writing them |
| Md5Stream.DigestOfParts | code/02app_develop/lighttpd-1.4.32/src/md5.c:113-195 | the digest of a message that comes in parts is that of the whole message |
| ShmTransfer.RunInv | code/02app_develop/03IPC/05shm/writer.c:88-101 | what every step of either process keeps: one right to use the buffer, and output, buffer and input agree |
| ShmTransfer.Safety | code/02app_develop/03IPC/05shm/read.c:73-81 | in every interleaving the buffer is never filled while it is drained, the output is a prefix of the input, and teardown comes after all of it |
| ShmTransfer.NoDeadlock | code/02app_develop/03IPC/05shm/writer.c:88-101 | in every state that is not final some process can go on |
| ShmTransfer.StepDecreases | code/02app_develop/03IPC/05shm/writer.c:88-101 | every step decreases a measure |
| ShmTransfer.Completion | code/02app_develop/03IPC/05shm/read.c:73-81 | every run ends, and one that cannot go on has transferred the whole input and ended both processes |
| ShmTransfer.Termination | code/02app_develop/03IPC/05shm/writer.c:88-101 | with short writes too every run ends, and one that cannot go on has ended both processes |
| ShmTransfer.BytesLost | code/02app_develop/03IPC/05shm/read.c:75-76 | with short writes, at every point of every run, output, waiting block and what was lost make up what was read; output and waiting block are the input so far if and only if every write took its whole block |
| ShmTransfer.OutputIsInputIff | code/02app_develop/03IPC/05shm/read.c:73-81 | at the end the output is the input if and only if every write took its whole block |
| FdEvents.FreeStackExact | code/02app_develop/lighttpd-1.4.32/src/fdevent_poll.c:38-54 | the free stack lists, without repetition, exactly the slots in use whose descriptor is -1 |
| FdEvents.OneSlotEach | code/02app_develop/lighttpd-1.4.32/src/fdevent_poll.c:76-115 | each active descriptor owns exactly one slot |
| FdEvents.WantedBits | code/02app_develop/lighttpd-1.4.32/src/fdevent.h:65-67 | which bits of an event mask mean reading and writing |
| FdEvents.LastOpDecides | code/02app_develop/lighttpd-1.4.32/src/fdevent.c:145-167 | what the operations stand for: the last one on a descriptor decides |
| FdEvents.Poll.EventSet | code/02app_develop/lighttpd-1.4.32/src/fdevent_poll.c:76-115 | the table holds the new events; a known slot, a free one or a new one is used; a slot of another descriptor aborts |
| FdEvents.Poll.EventDel | code/02app_develop/lighttpd-1.4.32/src/fdevent_poll.c:28-62 | the descriptor goes and its slot is put on the stack; a wrong slot aborts |
| FdEvents.Select.EventSet | code/02app_develop/lighttpd-1.4.32/src/fdevent_select.c:37-58 | the three sets and the greatest descriptor hold the same map |
| FdEvents.Select.EventDel | code/02app_develop/lighttpd-1.4.32/src/fdevent_select.c:27-35 | the descriptor leaves all three sets |
| FdEvents.Events.EventSet | code/02app_develop/lighttpd-1.4.32/src/fdevent.c:158-167 | either back end takes the new events, and the index handed back is the one that the next call needs |
| FdEvents.Events.EventDel | code/02app_develop/lighttpd-1.4.32/src/fdevent.c:145-156 | either back end drops the descriptor; one that is not registered is left alone |
| FdEvents.Run | code/02app_develop/lighttpd-1.4.32/src/fdevent.c:145-167 | for any run with kept indices both back ends hold the map that the operations stand for |

## Left out

- LrDriver.Parser.Parse: the loop in the C code has no counter; where it would go on for ever the method returns instead, and says so.
- LrDriver.Parser.ParseAll: error-token recovery and semantic actions are not part of this model; a parse is followed up to its first syntax error.
- The construction of the LR(0) states (`FindStates`, `FindLinks`): `ParserPipeline.Automaton` and `FindActions.StatesOk` state what they provide, as conditions on item sets, moves and links.
- The grammar-file scanner, option handling, report and template printing of `lemon.c`, and its hash tables, which are maps or numbers here.
- The character arrays that represent terminal sets in `lemon.c` (`SetAdd`, `SetUnion`) are sets here.
- ParserActions.ResolveAll: works on the actions of a state as an array sorted as `Action_sort` leaves it, with at most one shift in a group and no other mixture, as the automaton provides; the linked list of actions is not modelled.
- ParserPipeline.Generate: lists of actions and of transactions are shorter than 2^30, the bound of the list sort; the transactions are put in order by that sort, where the code calls `qsort`.
- FindActions.GenerateAndParse: the item sets, the moves between them, and the links and first sets of their configurations are conditions (`Automaton`, `StatesOk`, `InitsOk`, and for completeness `NothingMissing`), as FindStates and FindLinks provide them; `SumParse` has a grammar that meets them all. With conflicts or fallbacks nothing is said about which sentences are accepted.
- Decimal.LtoStr: the least long, whose sign cannot be changed, is excluded.
- GeneratedTables.ReportTable: `qsort` may order transactions of equal size in any way, so the order is a parameter; the widths of the C types chosen for the tables are not modelled.
- ListSort.MSortList: a list is null-terminated and its nodes distinct; the offset of the link field is fixed.
- CaselessArray.CArray.Run: requires that at no point more than 2^30 elements are held at once, or a number for a keyless element is no long; see CaselessArray.CArray.GetIndex for what happens beyond.
- CaselessArray.CArray.InsertUnique: elements are values with a key, a type and abstract callbacks; the weak-reference flag, the copying of whole arrays and `array_pop`, which does not update the index, are left out.
- PathSimplify.PathSimplify: the growth of the destination buffer before the pass is a precondition on its length; the back-slash translation of Windows builds is left out.
- UrlCoding.Buffer.AppendStringEncoded: requires a buffer that ends in a zero, as the code does on pain of abort.
- ChunkQueue.Queue.AppendFile: a file chunk is the sequence of its octets; names, mappings and deletion of temporary files are left out.
- ReadState.Connection.HandleRead: the octets that arrive, and whether the last buffer has room, are parameters; buffer capacities, TLS reads and FIONREAD are left out.
- ReadState.Run: one event is one readiness of the socket; a read that follows at once is another event. The response, and closing a connection that is not kept alive, are left out.
- ReadState.Connection.HandleReadState: the linked list of chunks is a sequence; the parser that finds the content length is a function of the header; the rest of the connection state machine is left out.
- ReadState.Connection.StoreInFile: whether a temporary file can be created and written are parameters; a partial write counts as failed.
- ChunkedCoding.RoundTrip: the decoder knows no chunk extensions and no trailer headers, which the code never writes.
- CondCache.Cache.CheckNocache: a block's own comparison (strings, patterns, addresses) is an abstract test; pattern matches and log lines are left out.
- Md5Stream.Context.Update: the transform of one block is a parameter; inputs for which the guard of the block loop wraps around are excluded, see Md5Stream.GuardExact.
- ShmTransfer.Safety: short writes are excluded, see ShmTransfer.BytesLost; errors of read and write, and the creation of the semaphores and the memory object, are not part of this model.
- FdEvents.Poll.EventSet: requires an index that it handed back, or -1 for a descriptor that is not registered, as the handlers in the repository keep it: for a registered one -1 would take a second slot, and an index outside the table would be read there.
- FdEvents.Run: waiting for events and reporting them, the other event back ends, and handlers and contexts of descriptors are left out.
- `base64_decode` and `accesslog_append_escaped`: their results depend on quirks that rule a clean round trip out.
- The sorting, list and calculator exercises, and the socket, kernel-module and language demonstrations: easy members, or plumbing.
- Sockets, processes, signals, TLS, LDAP, Lua, regular expressions and logging.
