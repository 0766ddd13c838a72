# Verified models of rag3db

rag3db is an embedded graph database. This project models its hardest self-contained algorithms in Dafny
and proves what they are for: that readers of the versioned catalog keep their snapshot, that parsing undoes
printing, that word-wide kernels do what a loop over bits would do, that a session leaves no transaction
behind. Where a law does not hold of the code as written, the model keeps the code, shows an input for which
it fails and proves the exact condition under which it holds.

| modules | what they model |
|---|---|
| `CatalogModel`, `CatalogSnapshots`, `CatalogWriters`, `CatalogRuns`, `CatalogResults`, `CatalogViews`, `CatalogFaults`, `CatalogSetClass` | the multi-version catalog set, its undo records, transactions over it and what each finds, where drop, rename and recovery break its rule, and its checkpoint image |
| `TextScan`, `IntText`, `ListText`, `ListRoundTrip`, `MapText`, `MapCast`, `MapRoundTrip` | printing nested lists and maps, splitting them and casting them back |
| `TextGrammar`, `ListGrammar`, `MapGrammar`, `TextDocs`, `DocCast` | which texts the splitters accept, as a grammar, and what the texts that people write are cast to |
| `NullMask` | the null-mask kernels over 64-bit words and bytes |
| `UnionFind`, `Ownership` | the card ownership model and its union-find |
| `Md5Spec`, `Md5` | streaming MD5 against RFC 1321 |
| `NestedValues`, `NestedOrder`, `NestedCompare`, `NestedHash`, `HashCollisions`, `VectorHash` | equality, order and hash of nested values in vectors |
| `SessionSpec`, `SessionBlocks`, `SessionContext` | the transaction behaviour of a connection |
| `ListSlices`, `CaseEvaluator`, `CaseChildren`, `Find`, `Checksum`, `Decimals` | batch evaluators and kernels |
| `Basics` | what the others share |

Code that changes things step by step is a method or a class proved against a function or a predicate; the
laws are lemmas about those. Points where the code may raise, the clock, the compression function of MD5,
leaf hashes, leaf orders and Unicode normalisation are parameters, so the results hold for all of them.

## What the code does differently from what is said of it

- `dropEntryNoLock` makes no write-write check, unlike create and alter. The single-writer invariant survives
  a drop exactly when the check would have passed (`DropKeepsExactlyWhenFree`). Otherwise the drop may commit
  before the writer it passed over, and then its tombstone hides that writer's later commit from everyone
  (`UnguardedDropHidesALaterCommit`); if that writer rolls back instead, the drop's undo record points to an
  entry that is no longer in the chain (`UnguardedDropLosesItsTarget`). Given that commits and rollbacks do
  what they mean, snapshot stability needs no such guard.
- A rename whose creation half throws has already pushed a tombstone that its rollback does not remove. In
  every later run the old name can then be neither created, altered nor renamed by any transaction
  (`ThrowingRenameBlocksTheName`), until a write that makes no check changes its chain (`BlockedStep`).
- An alter makes the check except in recovery. There its undo record names the version it saw, and its commit dates
  the new version, and its rollback restores the chain, exactly when the check would have passed
  (`AlterEndsExactlyWhenFree`).
- A checkpoint leaves functions out by the type of the newest version, committed or not, and takes the rest from the
  newest committed one. It writes what a transaction that begins then would find, functions aside, exactly under the
  names where the two agree on the type (`PersistentIsFreshView`): under all of them between writers (`QuietTells`),
  but a function whose drop is open is written (`OpenDropShowsFunction`).
- The cast of a map reserves as many slots as the text has values, and writes a key as soon as it has read one.
  A last key whose value does not end is written past the reservation before the cast fails
  (`PastReservationExactly`, `UnclosedMap`).
- A list of one NULL prints as an empty list. The cast undoes the printer exactly for lists without a lone
  NULL at any level (`CastUndoesPrintExactly`).
- A quote at the start of a list part opens a string only if the same quote comes again anywhere later in the text, and
  elsewhere in the part it is an ordinary character; inside brackets a single quote must be closed wherever it stands,
  and a double quote is a character; in a map both must be closed (`SplitExactly`, `CloseExactly`, `MapExactly`).
- The flag of `copyNullMask` is documented as being about the copied bits. With inversion and at most three
  bits it is about the bits before inversion; `FlagIsAsDocumentedExactly` says when that matters.
- The comment over `MD5Final` says that the bit count is stored most significant first; the code stores the
  low word first, as RFC 1321 asks, and that is what is modelled.
- Type equality ignores struct field names while `Equals` compares them and `GreaterThan` does not. Between
  types the comparison takes for equal, exactly one of >, =, < holds if and only if the names agree
  (`TotalExactlyWhenNamesAgree`).
- The hash of a struct does not read the struct's own null bit, so it is a function of the value exactly when
  the hashed fields of null structs are blank (`HashByValueExactlyWhenClean`, `NullStructsHashApart`).
- The hash of a nested value takes a null list for an empty one and a null struct for a struct of nulls; these, and what
  a node or relationship holds beside its identifier, are all it cannot tell (`CollideExactly`).
- The checksum of a buffer shows damage to one word or to the tail, but not that two runs of words changed places
  (`SameChecksumExactly`, `ExchangeUnseen`).
- A comment promises that any failing statement fails a BEGIN ... COMMIT block. A failure marks the block,
  leaves it as it was or closes it, depending on the statement and on what raised; `FateOfAStatement` and
  `FateOfACall` say which, for every statement, fault and call.
- A block ends not only by COMMIT and ROLLBACK: any other transaction statement that raises ends it too, unless it
  was waiting or the block has failed, and so does a body whose checkpoint raises (`EndsExactly`,
  `SecondBeginEndsTheBlock`).
- An interruption seen between preparing and executing leaves the auto-commit transaction open
  (`BoundaryExactlyWhenNoLeak`), and the next statements run in it, or end it (`OpenTransactionEnds`).
- CASE fills the rows that the selection vector of an alternative holds, and its WHEN children do not agree on
  what they leave there. A boolean column sets only the size of the vector, whose positions stay zero: over
  unfiltered rows CASE is then pointwise exactly when the column is true at no row but row 0 (`ColumnExactly`,
  `ColumnTakesRowZero`). Over filtered rows the column also rewrites the selection of the rows, and CASE is
  pointwise for at most two of them (`FilteredColumnExactly`, `FilteredColumnLosesARow`). A CASE as a WHEN goes
  over as many rows as the vector already holds, which is none, so it never holds (`NestedExactly`). A function
  that goes through `updateSelectedPos` leaves the vector alone when one row is selected, so that this row may
  get ELSE (`LoneRowFallsThrough`), or nothing while another row is written (`LoneRowWritesElsewhere`).
  `PointwiseExactly` says when CASE is pointwise for any mixture of children, any vectors and any rows.
- `resultingParams` of decimal addition gives the extra digit to the scale, so the sum of the two largest
  decimals of a type is always refused (`LargestSumOverflows`).

## Model

| member | source | states |
|---|---|---|
| `CatalogModel.VisibleIsFirst` | src/catalog/catalog_set.cpp:133-147 | the version found stands at an index above which no version is the transaction's own or committed by its start |
| `CatalogSnapshots.SnapshotStability` | src/catalog/catalog_set.cpp:77-230 | over every interleaving of other transactions' creates, alters, drops guarded or not, renames, commits and rollbacks, the last two taken as they are meant, what an open transaction finds under any name is unchanged |
| `CatalogSnapshots.TraversalNeverFallsOff` | src/catalog/catalog_set.cpp:133-147 | in every reachable state and for every open transaction the chain walk ends on a version |
| `CatalogSnapshots.RunKeepsShape` | src/catalog/catalog_set.cpp:93-123 | every run keeps chains grounded in a version older than every transaction, and stamps sound |
| `CatalogWriters.CommitByUndo` | src/storage/undo_buffer.cpp:186-262 | walking the undo records forward dates exactly the committing transaction's versions, under every name |
| `CatalogWriters.RollbackByUndo` | src/storage/undo_buffer.cpp:219-340 | walking them backward removes exactly the transaction's versions and restores the chains below |
| `CatalogWriters.CommittedBelow` | src/catalog/catalog_set.cpp:26-31 | below a writer's block every version is committed, no later than the writer's start |
| `CatalogRuns.SupersedesWhatItSees` | src/catalog/catalog_set.cpp:26-31 | the write-write check passes if and only if the head of the chain is the very version the transaction sees |
| `CatalogRuns.CreateKeeps` | src/catalog/catalog_set.cpp:93-123 | a create, refused or not, keeps the single-writer invariant |
| `CatalogRuns.DropKeeps` | src/catalog/catalog_set.cpp:159-181 | so does a drop that makes the check |
| `CatalogRuns.AlterKeeps` | src/catalog/catalog_set.cpp:183-230 | so does an alter |
| `CatalogRuns.RenameKeeps` | src/catalog/catalog_set.cpp:205-214 | so does a rename that succeeds |
| `CatalogRuns.CommitKeeps` | src/transaction/transaction_manager.cpp:111-215 | so does a commit, with chain timestamps still non-increasing downwards |
| `CatalogRuns.RollbackKeeps` | src/transaction/transaction_manager.cpp:220-292 | so does a rollback or the clean-up of a failed statement |
| `CatalogRuns.BeginKeeps` | src/transaction/transaction_manager.cpp:53-91 | so does a begin; what it sees is `CatalogViews.BegunSeesCommitted` |
| `CatalogRuns.RefreshKeeps` | src/transaction/transaction_manager.cpp:93-98 | so does a snapshot refresh |
| `CatalogRuns.StepRefines` | src/catalog/catalog_set.cpp:77-230 | one guarded step done through undo records equals the step as it is meant |
| `CatalogRuns.RunRefines` | src/catalog/catalog_set.cpp:77-230 | and so does a whole guarded run |
| `CatalogRuns.SnapshotStabilityThroughUndo` | src/catalog/catalog_set.cpp:77-230 | snapshot stability of the catalog as written, commits and rollbacks through undo records |
| `CatalogRuns.WritersNeverOverlap` | src/catalog/catalog_set.cpp:93-230 | over whole runs each chain is one writer's block above committed versions, and of two writers of a name the later one started after the earlier one committed |
| `CatalogResults.OpenedHolds` | src/catalog/catalog_set.cpp:290-305 | a loaded catalog satisfies the invariant that runs start from |
| `CatalogFaults.DropKeepsExactlyWhenFree` | src/catalog/catalog_set.cpp:159-181 | a drop as written keeps the invariant if and only if the check it leaves out would have passed |
| `CatalogFaults.DropOverAnother` | src/catalog/catalog_set.cpp:171-181 | over another writer's version the drop goes through and records that writer's head |
| `CatalogFaults.UnguardedDropHidesALaterCommit` | src/catalog/catalog_set.cpp:171-181 | from every such state, when the drop and then that writer commit, timestamps increase down the chain and no transaction that begins later finds the committed version |
| `CatalogFaults.TheCommitStaysHidden` | src/catalog/catalog_set.cpp:133-181 | the committed version stays hidden from whoever begins in any later run that does not write the name |
| `CatalogFaults.UnguardedDropLosesItsTarget` | src/storage/undo_buffer.cpp:319-340 | from every such state, when that writer rolls back, the drop's record points to an entry that is no longer in the chain |
| `CatalogFaults.SuchAStateIsReached` | src/catalog/catalog_set.cpp:171-181 | two transactions and one table reach such a state |
| `CatalogFaults.RenameKeepsExactlyWhenItSucceeds` | src/catalog/catalog_set.cpp:205-214 | a rename of a free name keeps the invariant if and only if the new name is the old one or can be created in the state before |
| `CatalogFaults.SuchARenameIsReached` | src/catalog/catalog_set.cpp:205-214 | two transactions and one table reach a state in which a rename throws |
| `CatalogFaults.BlockedStep` | src/catalog/catalog_set.cpp:77-230 | a name whose head belongs to a transaction that is gone keeps its chain through a step if and only if the step is no drop of it and no recovery alter or rename of it |
| `CatalogFaults.ThrowingRenameBlocksTheName` | src/catalog/catalog_set.cpp:205-214 | the tombstone of a rename that throws outlives the rollback, and in every later run without such a step no transaction can create, alter or rename the name |
| `CatalogFaults.AlterEndsExactlyWhenFree` | src/catalog/catalog_set.cpp:183-230 | for every alter that goes through: its commit dates the new version, and its rollback restores the chain, if and only if the check would have passed, which recovery leaves out |
| `CatalogResults.CommitPublishes` | src/transaction/transaction_manager.cpp:111-215 | by one commit step a fresh reader finds, under exactly the names written, what the writer found, dated |
| `CatalogResults.ViewChangesOnlyByOwnWrites` | src/catalog/catalog_set.cpp:77-230 | over every guarded run, a transaction that writes under other names only, and ends or refreshes nothing, keeps finding the same under a name |
| `CatalogViews.BegunSeesCommitted` | src/transaction/transaction_manager.cpp:53-91 | a begin opens one transaction of the kind asked for, which sees exactly the versions committed by then, and changes nothing else |
| `CatalogViews.RefreshedSeesCommitted` | src/transaction/transaction_manager.cpp:93-98 | so does a transaction after a refresh, and nothing else changes |
| `CatalogViews.CommitThenBegin` | src/transaction/transaction_manager.cpp:53-215 | after a commit a transaction of any kind that begins finds what the writer last found under the names it wrote, and under the others what it would have found by beginning before |
| `CatalogViews.RefreshFindsTheSame` | src/transaction/transaction_manager.cpp:53-98 | a refreshed transaction finds under every name what one that begins at that moment finds |
| `CatalogViews.CreatedIsNew` | src/catalog/catalog_set.cpp:77-91 | over every run, an entry that is created has an identifier that no live version in the set has |
| `CatalogViews.NumbersNeverRepeat` | src/include/catalog/catalog_set.h:52-57 | over every run, the counter gives no number twice, to creates or to alters, refused or rolled back ones included |
| `CatalogViews.OidsNeverRepeat` | src/catalog/catalog_set.cpp:77-91 | over every run, no two creates get the same identifier |
| `CatalogSetClass.Traverse` | src/catalog/catalog_set.cpp:133-147 | the loop along prev links returns what the visibility function gives |
| `CatalogSetClass.FindCommitted` | src/catalog/catalog_set.cpp:149-157 | the loop returns the newest committed version |
| `CatalogSetClass.CatalogSet.ContainsEntry` | src/catalog/catalog_set.cpp:33-47 | true exactly when the transaction finds a live entry |
| `CatalogSetClass.CatalogSet.GetEntry` | src/catalog/catalog_set.cpp:54-75 | the live entry found, or the error of a missing name |
| `CatalogSetClass.CatalogSet.CreateEntry` | src/catalog/catalog_set.cpp:77-115 | the new set and undo record are those of the create step, including every refusal |
| `CatalogSetClass.CatalogSet.DropEntry` | src/catalog/catalog_set.cpp:159-181 | likewise for drop |
| `CatalogSetClass.CatalogSet.AlterEntry` | src/catalog/catalog_set.cpp:183-230 | likewise for alter |
| `CatalogSetClass.CatalogSet.RenameEntry` | src/catalog/catalog_set.cpp:205-214 | likewise for rename, tombstone first, then the create that may throw |
| `CatalogSetClass.CatalogSet.CommitRecords` | src/storage/undo_buffer.cpp:186-262 | the forward loop over undo records |
| `CatalogSetClass.CatalogSet.RollbackRecords` | src/storage/undo_buffer.cpp:219-340 | the backward loop over undo records |
| `CatalogSetClass.CatalogSet.GetEntries` | src/catalog/catalog_set.cpp:232-243 | exactly the live entries the transaction finds |
| `CatalogSetClass.CatalogSet.Serialize` | src/catalog/catalog_set.cpp:261-288 | the image holds one item for each name whose newest version is not a function and whose newest committed version is not deleted, and no other |
| `CatalogSetClass.CatalogSet.FromImage` | src/catalog/catalog_set.cpp:290-305 | the set built from an image |
| `CatalogSetClass.PersistentIsFreshView` | src/catalog/catalog_set.cpp:261-288 | under a name a checkpoint writes what a transaction beginning then would find, functions aside, if and only if the newest version and the newest committed one agree on being a function |
| `CatalogSetClass.QuietTells` | src/catalog/catalog_set.cpp:261-288 | it holds under every name while no transaction has written |
| `CatalogSetClass.OpenDropShowsFunction` | src/catalog/catalog_set.cpp:261-288 | a state reached by one transaction in which it fails: a function whose drop is open is written |
| `CatalogSetClass.CreatedIsPersistent` | src/catalog/catalog_set.cpp:77-123 | a create that is committed is written by the next checkpoint, with its identifier and definition, unless it is a function |
| `CatalogSetClass.CheckpointRoundTrip` | src/catalog/catalog_set.cpp:261-305 | after loading, every transaction finds under such a name exactly what one beginning at the checkpoint would have found, functions aside, and the next identifier is the same |
| `CatalogSetClass.LoadedItemFound` | src/catalog/catalog_set.cpp:290-305 | every loaded item is found by every transaction |
| `CatalogSetClass.OnlyLoadedItemsFound` | src/catalog/catalog_set.cpp:290-305 | and nothing else is |
| `TextScan.SkipWhitespace` | src/function/cast_from_string_functions.cpp:180-193 | stops at the first character that is not space, or at the end |
| `TextScan.TrimRightWhitespace` | src/function/cast_from_string_functions.cpp:195-199 | leaves exactly the trailing space off |
| `TextScan.SkipToCloseQuotes` | src/function/cast_from_string_functions.cpp:210-221 | the next equal quote, or the end when there is none |
| `TextScan.SkipToClose` | src/function/cast_from_string_functions.cpp:223-249 | on arbitrary text it ends at the matching bracket with the level one lower, or at the end, and never reads past it |
| `TextGrammar.CloseExactly` | src/function/cast_from_string_functions.cpp:223-249 | for every text, the skip stops at a bracket if and only if what lies before it is characters, closed strings and closed groups |
| `IntText.ReadUndoesShow` | src/include/function/cast/functions/cast_string_non_nested_functions.h:87-240 | every 64-bit integer is read back from its text |
| `IntText.ReadDigitsExactly` | src/include/function/cast/functions/cast_string_non_nested_functions.h:190-211 | the loop reads exactly the digit strings whose number is in the range, and gives that number |
| `IntText.ReadIntExactly` | src/include/function/cast/functions/cast_string_non_nested_functions.h:213-240 | for every text: which texts are read as an integer, sign and leading zeros included, and as which |
| `ListText.PrintList` | src/common/type_utils.cpp:182-197 | the loop prints a list as the printed form of its entries joined by commas |
| `ListText.SplitCStringList` | src/function/cast_from_string_functions.cpp:301-349 | on arbitrary text the loop hands over the parts, in order, that the splitting function gives, without a read at or past the end |
| `ListGrammar.SplitExactly` | src/function/cast_from_string_functions.cpp:301-349 | for every text and all parts: the splitter accepts the text and hands over these parts if and only if the grammar of lists makes them its parts |
| `ListRoundTrip.SkipList` | src/function/cast_from_string_functions.cpp:223-249 | from the bracket of a printed list, however nested, the skip stops on its own closing bracket |
| `ListRoundTrip.SplitPrinted` | src/function/cast_from_string_functions.cpp:301-349 | a printed list is split at its own commas, one part an element, except that a lone NULL reads as no element |
| `ListRoundTrip.CastPrinted` | src/function/cast_from_string_functions.cpp:387-409 | casting the print of any nested list of integers and NULLs gives it back with lone NULLs collapsed |
| `ListRoundTrip.CastUndoesPrintExactly` | src/function/cast_from_string_functions.cpp:387-409 | the same value back if and only if no list at any level is a lone NULL |
| `ListRoundTrip.CollapseExactly` | src/common/type_utils.cpp:104-110 | collapsing changes nothing exactly for such values |
| `ListRoundTrip.CastList` | src/function/cast_from_string_functions.cpp:387-409 | the fill pass writes at most the slots the count pass reserved, and exactly those, in order, when it succeeds |
| `DocCast.IsNullExactly` | src/function/cast_from_string_functions.cpp:251-270 | a text is NULL if and only if it is blank or the word NULL in any case with white space around |
| `TextDocs.CloseNest` | src/function/cast_from_string_functions.cpp:223-249 | from the opening bracket of any written document, strings and groups inside it, the skip stops on its own closing one |
| `TextDocs.SplitWritten` | src/function/cast_from_string_functions.cpp:301-349 | a list written in any way, with white space, quoted strings, lists and structs in it, is split into exactly the places of its parts |
| `TextDocs.PartsWritten` | src/function/cast_from_string_functions.cpp:272-349 | and the texts handed on are the parts, white space around them left off |
| `TextDocs.ListsAreBracketed` | src/function/cast_from_string_functions.cpp:301-349 | whatever the text, what is accepted has its brackets at both ends |
| `DocCast.CastDoc` | src/function/cast_from_string_functions.cpp:387-409 | a list written in any way, NULL as the word or as nothing, is cast to exactly the list meant |
| `DocCast.EveryListReturns` | src/function/cast_from_string_functions.cpp:387-409 | every typed list, lone NULLs included, has a text that is cast back to it |
| `MapText.ParseKeyOrValue` | src/function/cast_from_string_functions.cpp:459-490 | the field ends at its separator outside quotes and brackets, never past the text |
| `MapText.SplitCStringMap` | src/function/cast_from_string_functions.cpp:492-525 | on arbitrary text the loop hands over the keys and values that the splitting function gives |
| `MapGrammar.FieldExactly` | src/function/cast_from_string_functions.cpp:459-490 | for every text, a key or value ends at a place if and only if the grammar makes what lies before it one |
| `MapGrammar.MapExactly` | src/function/cast_from_string_functions.cpp:492-525 | for every text, keys and values: the splitter accepts the text and hands over these if and only if the grammar of maps makes them its keys and values |
| `MapText.FillMatchesCount` | src/function/cast_from_string_functions.cpp:272-283 | the count pass, which counts values, finds as many as there are keys, or one fewer, and then the text is no map |
| `MapText.PairsAlternate` | src/function/cast_from_string_functions.cpp:492-525 | each value lies after its key and before the next key, all within the text |
| `MapCast.WritesInOrder` | src/function/cast_from_string_functions.cpp:419-457 | on any text the fill pass writes a key and then its value into each slot in turn, each the copy of its field |
| `MapCast.CastMap` | src/function/cast_from_string_functions.cpp:527-543 | count, reserve, fill: on success exactly the reserved slots are written, each with a key and a value, and hold the result |
| `MapCast.CastSucceedsExactly` | src/function/cast_from_string_functions.cpp:419-457 | the fill pass goes through if and only if every field copies, no key is NULL and no two keys are equal |
| `MapCast.PastReservationExactly` | src/function/cast_from_string_functions.cpp:419-457 | a key is written past the reservation if and only if the scan comes to a key whose value does not end and everything before it is accepted; the cast then fails |
| `MapCast.UnclosedMap` | src/function/cast_from_string_functions.cpp:419-457 | such a text, with one slot reserved and a key in the slot after it |
| `MapRoundTrip.PrintMap` | src/common/type_utils.cpp:199-226 | the loop prints entries with an equals sign, separated by comma and space |
| `MapRoundTrip.SplitPrintedMap` | src/function/cast_from_string_functions.cpp:492-525 | splitting a printed map finds exactly the places of its keys and values, in order |
| `MapRoundTrip.CastPrintedMap` | src/function/cast_from_string_functions.cpp:527-543 | casting the text of any map gives its entries with lone NULLs collapsed, or fails if and only if that makes two keys equal |
| `MapRoundTrip.CastUndoesMapPrintExactly` | src/function/cast_from_string_functions.cpp:527-543 | the cast undoes the printer if and only if no key and no value holds a lone NULL |
| `DocCast.SplitWrittenMap` | src/function/cast_from_string_functions.cpp:492-525 | a map written in any way is split into exactly the texts of its keys and values |
| `DocCast.CastDocMap` | src/function/cast_from_string_functions.cpp:527-543 | and cast to exactly the entries meant, or refused if and only if two keys are equal |
| `DocCast.MapsAreBraced` | src/function/cast_from_string_functions.cpp:492-525 | whatever the text, what is accepted has its braces at both ends |
| `NullMask.IsNull` | src/include/common/null_mask.h:116-119 | reads the bit at the position |
| `NullMask.SetNull` | src/common/null_mask.cpp:13-21 | changes that bit and no other |
| `NullMask.CopyFew` | src/common/null_mask.cpp:27-34 | the path for up to three bits copies or inverts exactly the range; its flag is about the bits before inversion |
| `NullMask.CopyByBytes` | src/common/null_mask.cpp:36-67 | the byte path copies exactly the range and reports a set bit |
| `NullMask.CopyUnaligned` | src/common/null_mask.cpp:73-135 | the shifting path copies or inverts exactly the range, whatever the two alignments, and reports after inversion |
| `NullMask.CopyNullMask` | src/common/null_mask.cpp:23-71 | all three paths equal copying or inverting bit by bit and leave every other bit |
| `NullMask.FlagIsAsDocumentedExactly` | src/include/common/null_mask.h:140-146 | the flag says what is documented except when up to three bits, all alike, are inverted |
| `NullMask.SetNullRange` | src/common/null_mask.cpp:164-207 | sets or clears exactly the range, over any number of words |
| `NullMask.GetMinMax` | src/common/null_mask.cpp:216-278 | for a range that is not empty, whether all bits and whether any bit are set; for an empty one, false and false |
| `UnionFind.Find` | experiments/mtga/catalog_model.py:23-27 | ends, returns the root and leaves every root unchanged under path halving |
| `UnionFind.SameRootExactlyWhenConnected` | experiments/mtga/catalog_model.py:20-51 | two elements share a root if and only if the edges linked so far connect them |
| `UnionFind.RootIsLeast` | experiments/mtga/catalog_model.py:32-33 | the root is the least element of its component |
| `UnionFind.Link` | experiments/mtga/catalog_model.py:32-33 | linking the larger root under the smaller adds exactly one edge to the relation |
| `Ownership.LinkAllFaces` | experiments/mtga/catalog_model.py:29-33 | the first pass links exactly the face and rebalance edges between known cards |
| `Ownership.GroupOriginals` | experiments/mtga/catalog_model.py:37-46 | the original fronts of every printing, in row order |
| `Ownership.LinkAll` | experiments/mtga/catalog_model.py:29-51 | after both passes the trees are the components of face, rebalance and unambiguous-printing edges |
| `Ownership.PrintEdgeByMatches` | experiments/mtga/catalog_model.py:47-51 | a printing edge exists exactly when one and only one row is an original front of that printing |
| `Ownership.EdgeExactly` | experiments/mtga/catalog_model.py:29-51 | two cards are joined if and only if one names the other, which is known, or is rebalanced and the other is the only original front of the same name, set and number |
| `Ownership.FrontAt` | experiments/mtga/catalog_model.py:57 | the first of the least members: primary first, then not rebalanced, then by identifier |
| `Ownership.FrontIsLeast` | experiments/mtga/catalog_model.py:57 | no member comes before the front: by being primary, then by not being rebalanced, then by identifier |
| `Ownership.MaxOwned` | experiments/mtga/catalog_model.py:59 | the greatest owned count, attained |
| `Ownership.GroupFamilies` | experiments/mtga/catalog_model.py:52-54 | the rows of each family and the families in order of first appearance |
| `Ownership.TotalsAgree` | experiments/mtga/catalog_model.py:60-61 | the running totals are the sum over families, each once, of what they add to the name |
| `Ownership.Tally` | experiments/mtga/catalog_model.py:55-64 | totals and rows after the loop over families |
| `Ownership.FamiliesExactlyComponents` | experiments/mtga/catalog_model.py:14-67 | cards share a family identifier if and only if edges connect them, and then the whole row |
| `Ownership.OwnershipModel` | experiments/mtga/catalog_model.py:14-67 | every card's row: least identifier of its component, front name, the family's maximum owned count, and the name's total over families whose front is no token |
| `Md5Spec.CounterAdds` | src/common/md5.cpp:142-147 | the two-word carry arithmetic adds eight times the length modulo 2^64 |
| `Md5Spec.WordsWeigh` | src/common/md5.cpp:139-181 | the words of a block weigh their four bytes low byte first |
| `Md5Spec.StateWeighs` | src/common/md5.cpp:183-218 | the digest bytes are the four state words in order, low byte first |
| `Md5Spec.StartsAsListed` | src/common/md5.cpp:129-137 | the state starts from the sixteen bytes that section 3.3 of RFC 1321 lists |
| `Md5Spec.PaddedIsWhole` | src/common/md5.cpp:183-214 | padding per sections 3.1 and 3.2 of RFC 1321: the message, a one bit, zeros, the length in bits low byte first; whole blocks, adding between 9 and 72 bytes |
| `Md5.Md5Context.Init` | src/common/md5.cpp:129-137 | starts from the empty message |
| `Md5.Md5Context.Update` | src/common/md5.cpp:139-181 | the context becomes that of the message with the chunk appended, for every split into tail, blocks and rest |
| `Md5.Md5Context.Final` | src/common/md5.cpp:183-218 | the digest is that of the padded message; the context is cleared |
| `Md5.OneBlock` | src/common/md5.cpp:204-214 | one closing block is the padded end of the message when the tail has fewer than 56 bytes |
| `Md5.TwoBlocks` | src/common/md5.cpp:196-214 | two closing blocks otherwise |
| `Md5.Md5Context.Add` | src/include/common/md5.h:74-80 | starts a message if none is open, then appends |
| `Md5.Md5Context.Finish` | src/include/common/md5.h:85-93 | the text that spells the digest, or the previous text when nothing was added |
| `Md5.DigestToBase16` | src/common/md5.cpp:220-230 | the text spells the bytes: two digits each, the place of the first in the sixteen digits counting sixteen times |
| `Md5.DigestOfChunks` | src/common/md5.cpp:129-218 | for every message and every way of cutting it into updates, the text is that of the message digested at once |
| `NestedOrder.Trichotomy` | src/function/comparison_functions.cpp:166-222 | on the values of a type exactly one of a > b, a = b, b > a holds |
| `NestedOrder.Transitive` | src/function/comparison_functions.cpp:166-222 | > is transitive |
| `NestedOrder.Lexicographic` | src/function/comparison_functions.cpp:166-222 | a nested value is greater if and only if there is a first item in which the two differ and it is greater there, or it is a list that goes on where the other ends |
| `NestedOrder.TotalExactlyWhenNamesAgree` | src/function/comparison_functions.cpp:135-222 | between types equal up to field names the order is total if and only if the names agree |
| `NestedCompare.NestedEqual` | src/function/comparison_functions.cpp:104-113 | equality of the values at two positions, nulls included |
| `NestedCompare.EqualsOperation` | src/function/comparison_functions.cpp:115-164 | equal types and equal values, through the loops over lists and structs |
| `NestedCompare.NestedGreater` | src/function/comparison_functions.cpp:166-184 | order and equality of the values at two positions |
| `NestedCompare.GreaterOperation` | src/function/comparison_functions.cpp:186-222 | lexicographic order of lists and structs with early return |
| `NestedCompare.PositionsOrdered` | src/function/comparison_functions.cpp:166-222 | between any two positions of vectors of one type exactly one of greater, equal, less holds, and a null position is greater than exactly those that are not null |
| `NestedCompare.PositionsLexicographic` | src/function/comparison_functions.cpp:166-222 | the same between positions of vectors, in terms of the elements at the first place where they differ |
| `NestedCompare.PositionsTransitive` | src/function/comparison_functions.cpp:166-222 | greater-than between positions of vectors of one type is transitive |
| `NestedHash.CleanHashesByValue` | src/function/vector_hash_functions.cpp:147-202 | the hash of a position is a function of its type and value when null structs are blank |
| `NestedHash.EqualHashEqually` | src/function/vector_hash_functions.cpp:123-236 | equal nested values hash equally, wherever they stand and whatever the leaf hash and combination |
| `NestedHash.HashByValueExactlyWhenClean` | src/function/vector_hash_functions.cpp:172-202 | that condition is exact |
| `NestedHash.NullStructsHashApart` | src/function/vector_hash_functions.cpp:185-198 | two equal null structs that hash differently |
| `HashCollisions.CollideExactly` | src/function/vector_hash_functions.cpp:123-236 | two values hash alike under every hashing if and only if they are equal once null lists are read as empty, null structs as structs of nulls, and nodes as their identifiers |
| `HashCollisions.PositionsCollideExactly` | src/function/vector_hash_functions.cpp:123-236 | the same for positions of vectors |
| `VectorHash.HashLeaves` | src/function/vector_hash_functions.cpp:21-63 | every selected slot gets the hash of its position, the others keep theirs |
| `VectorHash.HashData` | src/function/vector_hash_functions.cpp:123-145 | the pass in chunks of the capacity hashes every element of the data vector once |
| `VectorHash.FinishLists` | src/function/vector_hash_functions.cpp:147-164 | the fold of the element hashes of each list |
| `VectorHash.HashStructs` | src/function/vector_hash_functions.cpp:185-198 | field by field over the selection, combined in place |
| `VectorHash.ComputeHash` | src/function/vector_hash_functions.cpp:204-226 | the vectorised hash equals the scalar hash at every selected position |
| `SessionSpec.BoundaryExactlyWhenNoLeak` | src/main/client_context.cpp:519-603 | a statement ends with auto-commit meaning no transaction if and only if it is not interrupted between preparing and executing, nor refused or kept waiting on a transaction left open before |
| `SessionSpec.OpenTransactionEnds` | src/main/client_context.cpp:629-665 | on a transaction left open, a statement keeps it or ends it, a body runs inside it, and BEGIN and CHECKPOINT fail |
| `SessionSpec.FailedBlockWaits` | src/main/client_context.cpp:646-663 | in a failed block no body runs, a refused BEGIN or CHECKPOINT changes nothing, COMMIT or ROLLBACK may close it, and only ROLLBACK succeeds |
| `SessionSpec.FateOfAStatement` | src/main/client_context.cpp:456-665 | every statement in a healthy block, with every fault: it succeeds, or the block is marked, kept as it is or closed, exactly as the kind of statement and the first call that raises decide |
| `SessionSpec.FateOfACall` | src/main/client_context.cpp:283-417 | the same for every call: a query has the fate of its first failing statement in the block that statement finds |
| `SessionSpec.BoundaryOverRuns` | src/main/client_context.cpp:283-417 | over every run of calls, each call ends at a boundary if and only if no statement that is reached leaks |
| `SessionSpec.FailedOverRuns` | src/main/client_context.cpp:283-417 | a failed block stays as it is, with no body run, over every run of calls without COMMIT or ROLLBACK |
| `SessionBlocks.EndsExactly` | src/main/client_context.cpp:456-665 | for every statement and fault, whether it ends a healthy block |
| `SessionBlocks.ReadBlockNeverWrites` | src/transaction/transaction_context.cpp:24-64 | after BEGIN READ, over every run of calls that does not end the block, no body that has to write runs, and the block stays |
| `SessionBlocks.SecondBeginEndsTheBlock` | src/processor/operator/transaction.cpp:70-97 | a second BEGIN is refused and ends a read block, after which a body that writes runs |
| `SessionBlocks.BlockRunsEveryBody` | src/processor/operator/transaction.cpp:46-52 | after BEGIN READ or BEGIN WRITE, over every run of calls in which nothing raises, exactly the bodies given run, in order; in a read block, as long as none has to write |
| `SessionBlocks.LogCounts` | src/main/client_context.cpp:283-417 | the bodies listed are those counted over every run |
| `SessionBlocks.IdleSucceedsExactly` | src/main/client_context.cpp:456-665 | outside a block a statement succeeds if and only if nothing raises that is called for it, its commit included; a body runs if and only if it is prepared, planned and not interrupted |
| `SessionBlocks.IdlePrepares` | src/main/client_context.cpp:283-360 | preparing outside a block runs nothing and leaves nothing open, and when it succeeds |
| `SessionBlocks.LeftOpenAsAsked` | src/transaction/transaction_context.cpp:36-45 | a transaction left open is a reading or a writing one as the interrupted statement asked |
| `SessionContext.ClientContext.CommitTransaction` | src/transaction/transaction_context.cpp:66-93 | a failed block is rolled back and refused; a commit that raises may leave the transaction to the caller |
| `SessionContext.ClientContext.RollbackTransaction` | src/transaction/transaction_context.cpp:95-109 | the transaction is forgotten whether or not the rollback raises |
| `SessionContext.ClientContext.RollbackAfterStatementFailure` | src/transaction/transaction_context.cpp:111-135 | auto-commit rolls back, a read block goes on, a write block is marked; and when it raises |
| `SessionContext.ClientContext.Operate` | src/processor/operator/transaction.cpp:20-97 | the transaction statements, in a failed block and outside |
| `SessionContext.ClientContext.RunInTransaction` | src/main/client_context.cpp:629-665 | what is open afterwards for every kind of work and every point that raises |
| `SessionContext.ClientContext.Prepare` | src/main/client_context.cpp:466-517 | the session after preparing is that of the table |
| `SessionContext.ClientContext.ExecuteStatement` | src/main/client_context.cpp:519-603 | the session after executing is that of the table, and the body ran exactly when the table says so |
| `SessionContext.ClientContext.RunQuery` | src/main/client_context.cpp:362-417 | statement by statement up to the first that fails |
| `SessionContext.ClientContext.Serve` | src/main/client_context.cpp:283-360 | query, prepare and execute calls, with parse and parameter failures |
| `SessionContext.ClientContext.ServeAll` | src/main/client_context.cpp:283-417 | a whole run of calls, interruptions included, equals the run of the table |
| `ListSlices.SortByOffset` | src/expression_evaluator/list_slice_info.cpp:15-21 | the same positions, ordered by the offsets of their lists |
| `ListSlices.ListEntryTracker.SkipEmpty` | src/expression_evaluator/list_slice_info.cpp:38-49 | passes over null and empty lists without losing an element |
| `ListSlices.ListEntryTracker.Next` | src/expression_evaluator/list_slice_info.cpp:25-36 | exactly the current element is taken off what remains |
| `ListSlices.NextSlice` | src/expression_evaluator/list_slice_info.cpp:92-104 | the next elements in order, full unless nothing remains |
| `ListSlices.Evaluate` | src/expression_evaluator/lambda_evaluator.cpp:54-68 | the slices of one evaluation, concatenated, are the enumeration; all but the last are full; the loop ends |
| `ListSlices.InEnumerated` | src/expression_evaluator/list_slice_info.cpp:88-104 | an element is enumerated, with its list, if and only if its list is selected, not null, and holds it |
| `ListSlices.ExactEnumeration` | src/expression_evaluator/list_slice_info.cpp:10-49 | each exactly once |
| `CaseEvaluator.CaseExpression.FillEntry` | src/expression_evaluator/case_evaluator.cpp:98-105 | fills a position that is still empty, from a flat or an unflat source |
| `CaseEvaluator.CaseExpression.Fill` | src/expression_evaluator/case_evaluator.cpp:82-96 | fills the empty ones of the given positions and no other |
| `CaseEvaluator.CaseExpression.Evaluate` | src/expression_evaluator/case_evaluator.cpp:27-49 | for any selection vectors, and whatever the children leave of the selection of the rows, every position of the result gets the value of the first alternative that goes over it, or ELSE if ELSE finds it selected, unless the count of filled positions ends the evaluation before; the others keep theirs |
| `CaseEvaluator.PointOriginIsPointwise` | src/expression_evaluator/case_evaluator.cpp:27-49 | reading where pointwise CASE takes its value gives the THEN of the first alternative that holds, else ELSE |
| `CaseEvaluator.FitsExactly` | src/expression_evaluator/case_evaluator.cpp:27-49 | for any children at all: the positions take their values from where pointwise CASE takes them if and only if every alternative reached goes over exactly the open positions it holds for, the evaluation ends early only with nothing open, and ELSE finds the rest |
| `CaseEvaluator.Compact` | src/expression_evaluator/case_evaluator.cpp:56-67 | in-place compaction keeps exactly the positions of true rows, in order |
| `CaseEvaluator.Select` | src/expression_evaluator/case_evaluator.cpp:51-68 | of the positions in the given vector, as many as its size, those are kept, in order, for whose row what CASE leaves in the result is true |
| `CaseChildren.UpdateSelectedPos` | src/include/expression_evaluator/expression_evaluator.h:85-107 | several rows: the true ones; one row: the selection vector as it was |
| `CaseChildren.OverwrittenAt` | src/expression_evaluator/reference_evaluator.cpp:14-31 | what the loop of a column leaves in the buffer it writes: the true positions, then the last position if it is not true, then what was there |
| `CaseChildren.SelectUnfiltered` | src/expression_evaluator/reference_evaluator.cpp:17-21 | a column over unfiltered rows counts the true ones and writes into a buffer that is not in use |
| `CaseChildren.SelectFiltered` | src/expression_evaluator/reference_evaluator.cpp:22-30 | a column over filtered rows counts the true ones and so rewrites the selection in place |
| `CaseChildren.PointwiseExactly` | src/expression_evaluator/case_evaluator.cpp:27-49 | for children of all four kinds, whatever their vectors hold, any number of rows, filtered or not: CASE is pointwise if and only if each child reached goes over the right ones of the open rows and no open row leaves the selection |
| `CaseChildren.FreshForEver` | src/expression_evaluator/case_evaluator.cpp:11-17 | over every sequence of batches the vector of a column holds zeros and that of a nested CASE nothing |
| `CaseChildren.SteadyExactly` | src/expression_evaluator/case_evaluator.cpp:27-49 | with such vectors, over rows whose selection no column rewrites: CASE is pointwise if and only if, for every row and up to its first alternative that holds, no nested CASE holds, a column holds nowhere or exactly at row 0, and a lone row is in the old vector of the function that holds for it |
| `CaseChildren.ColumnExactly` | src/expression_evaluator/reference_evaluator.cpp:14-31 | one column over unfiltered rows: pointwise if and only if it is true at no row but row 0 |
| `CaseChildren.FilteredColumnExactly` | src/expression_evaluator/reference_evaluator.cpp:14-31 | one column over filtered rows: pointwise if and only if there is one row, not true unless it is row 0, or two, the first of them row 0 and alone true |
| `CaseChildren.NestedExactly` | src/expression_evaluator/case_evaluator.cpp:51-68 | one nested CASE: pointwise if and only if it is true nowhere |
| `CaseChildren.ColumnTakesRowZero` | src/expression_evaluator/reference_evaluator.cpp:14-31 | a row that is alone true in a column gets ELSE, and row 0 gets its THEN |
| `CaseChildren.FilteredColumnLosesARow` | src/expression_evaluator/reference_evaluator.cpp:22-30 | two filtered rows become one of them twice, and the other gets no value |
| `CaseChildren.LoneRowFallsThrough` | src/include/expression_evaluator/expression_evaluator.h:98-106 | a lone true row that gets ELSE |
| `CaseChildren.LoneRowWritesElsewhere` | src/include/expression_evaluator/expression_evaluator.h:98-106 | a lone true row that keeps its old value while a row outside the selection is written |
| `Find.UnalignedFind` | src/function/find_function.cpp:10-42 | the least occurrence through the window shifted in a word, or -1 |
| `Find.AlignedFind` | src/function/find_function.cpp:44-58 | the same by comparing whole words |
| `Find.SumPasses` | src/function/find_function.cpp:72-83 | the filter by sums modulo 2^32 lets every occurrence through |
| `Find.GenericFind` | src/function/find_function.cpp:60-91 | the same through the rolling sum |
| `Find.Find` | src/function/find_function.cpp:93-127 | the least index of a needle that is not empty, or -1 exactly when it occurs nowhere, for every length |
| `Checksum.MixTells` | src/common/checksum.cpp:13-15 | multiplication by the odd constant modulo 2^64 is injective |
| `Checksum.RemainderTells` | src/common/checksum.cpp:20-71 | the string hash of strings of one length that differ after the last whole word only is the same if and only if they are equal |
| `Checksum.RemainderTellsWords` | src/common/checksum.cpp:20-71 | likewise for strings that differ in one aligned word only |
| `Checksum.ChecksumRemainder` | src/common/checksum.cpp:20-71 | at every length, the loop over the words and the fall-through over the tail compute that hash |
| `Checksum.ChecksumBuffer` | src/common/checksum.cpp:73-86 | the loop over words and the tail compute the checksum |
| `Checksum.WordDamageShows` | src/common/checksum.cpp:73-86 | buffers that differ in one aligned word only have the same checksum if and only if they are equal |
| `Checksum.TailDamageShows` | src/common/checksum.cpp:73-86 | likewise for buffers that differ after the last whole word only |
| `Checksum.SameChecksumExactly` | src/common/checksum.cpp:73-86 | buffers with the same tail have the same checksum if and only if their words, mixed, give the same taken together |
| `Checksum.ExchangeUnseen` | src/common/checksum.cpp:73-86 | two runs of whole words that change places leave the checksum as it was |
| `Decimals.AddExactlyFits` | src/function/vector_arithmetic_functions.cpp:490-505 | addition is refused exactly when the sum reaches ten to the precision, with bounded intermediates |
| `Decimals.SubtractExactlyFits` | src/function/vector_arithmetic_functions.cpp:517-529 | likewise for subtraction, with both its intermediates bounded, which is addition of the opposite |
| `Decimals.UnclampedAddIsExact` | src/function/vector_arithmetic_functions.cpp:507-514 | below the precision limit both operands are rescaled exactly and the result is their sum or a refusal |
| `Decimals.UnclampedAddsNumbers` | src/function/vector_arithmetic_functions.cpp:490-539 | what addition and subtraction return stands for the sum and the difference of the rational numbers that the operands stand for |
| `Decimals.AddParamsExactly` | src/function/vector_arithmetic_functions.cpp:507-514 | the scale and precision of a result, at the limit too |
| `Decimals.SumIsExact` | src/function/vector_arithmetic_functions.cpp:490-514 | for any two types: the sum of the numbers, or a refusal if and only if an operand or the sum does not fit the type of the result |
| `Decimals.LargestSumOverflows` | src/function/vector_arithmetic_functions.cpp:507-514 | the largest decimals of a type cannot be added |
| `Decimals.MultiplyNeverOverflows` | src/function/vector_arithmetic_functions.cpp:541-563 | a product is never refused under the precision it is given |
| `Decimals.MultiplyMultipliesNumbers` | src/function/vector_arithmetic_functions.cpp:541-563 | and it stands for the product of the rational numbers |
| `Decimals.RoundedIsNearest` | src/include/function/cast/functions/cast_decimal.h:80-84 | the cast to a smaller scale gives the nearest, ties away from zero |
| `Decimals.CastKeepsNumber` | src/include/function/cast/functions/cast_decimal.h:69-93 | the cast to a scale at least as large keeps the number, and refuses exactly what does not fit |
| `Decimals.FloorIsFloor` | src/function/vector_arithmetic_functions.cpp:632-648 | floor under truncating division is the mathematical one |
| `Decimals.CeilIsCeil` | src/function/vector_arithmetic_functions.cpp:653-669 | and ceiling the mathematical one |
| `Decimals.IntermediatesBounded` | src/function/vector_arithmetic_functions.cpp:632-669 | their intermediates do not exceed ten to the precision |

## Left out

- Catalog: locks and the memory model; each locked method is one step. Names are the folded names the map is keyed by. Identifier and timestamp counters do not wrap around.
- Catalog: a commit or rollback through a record whose entry has left the chain, where the code reads a destroyed entry; the functions then change nothing, and no result says what such a step does.
- Catalog: `getEntryOfOID`, which looks at the head of a chain, and entries created by the dummy transactions at start-up.
- Catalog: the requests and waits by which the transaction manager schedules checkpoints.
- CatalogSetClass.CheckpointRoundTrip: names whose newest version and newest committed one do not agree on being a function; `PersistentIsFreshView` says that these are the names where it fails.
- Text: struct and union casts, lists without brackets, type inference by regular expressions, and leaves other than 64-bit integers and NULL.
- MapRoundTrip.SplitPrintedMap: requires keys that are not NULL, which a map does not hold; entries that are null as a whole are not modelled.
- DocCast.CastDoc: documents with brackets inside double-quoted strings inside brackets, which the skip does not take for strings; `SplitExactly` covers every text.
- DocCast.CastDocMap: keys whose plain text holds an equals sign, which ends a key; `MapExactly` covers every text.
- NullMask: a word is its 64 bits; the mask tables are given by the bits they set, not by their numbers.
- NullMask.CopyNullMask: source and destination are different buffers, bytes are in little-endian order, and in the path for up to three bits positions stay below 2^32, where the code passes them as 32-bit numbers.
- NullMask.GetMinMax: requires the first word to exist, which the code reads even for an empty range.
- Ownership: Unicode normalisation and case folding are parameters; an identifier is a natural number; the order of the result rows is not modelled.
- Md5: the round function and its constants; the result holds for every compression function. Buffer bytes are modelled as on a little-endian machine, where the byte reversal does nothing.
- Nested values: floating-point leaves, which have no total order, and unions; the leaf order, the leaf hash and the combination of hashes are parameters.
- VectorHash.HashLeaves: the variants for vectors without nulls and for unfiltered selections are the same loop with a test left out.
- Session: the rewriting of standalone calls while parsing, statements whose bodies open or close transactions themselves, recovery transactions, and timeouts inside the transaction manager. On a transaction left open the debug assertion of `validateTransaction` is taken as compiled out.
- CaseEvaluator.Select: the vector it is given and the selection of the result are two buffers, where a filter passes one for both; assertions about their sizes are taken as compiled out.
- CaseEvaluator: the vectors of THEN and ELSE are read as they are after their evaluation; that a function evaluates the selected positions only is not modelled.
- CaseChildren.PointwiseExactly: a THEN, ELSE, function argument or nested CASE that contains a CASE over a filtered column and so rewrites the selection itself; `FitsExactly` covers these.
- Find.Find: an empty needle, for which `operation` overwrites the answer it has just given and reads a byte the needle does not have.
- Decimals: division, which is not registered, modulo, and the physical integer widths; intermediates are bounded by ten to the precision instead.
- The storage engine, the planner and binder, the processor's other operators, extensions, the C API and the language bindings.
