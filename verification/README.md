# RunAlexDB, modelled and verified in Dafny

RunAlexDB is an in-memory SQL engine that speaks the MySQL wire protocol. Most of its speed comes from keeping
a fast form of something beside the plain one: an index and column stores beside the rows, a cached reply beside
the engine, a zero-copy encoder beside the plain encoder. This project models those pairs and proves when they agree.
Where they do not always agree, the exact condition is proved, and a concrete case where it fails.

| file | what it models |
|---|---|
| `Numbers`, `Comparison`, `Texts`, `Seqs`, `Utf8` | machine integers, decimal texts, text order, trimming, sequences, bytes of texts |
| `Sql`, `Evaluators` | values, filters and the three evaluators; LIKE |
| `AccessPaths`, `SimdScan` | the index probe, the column scans and their four-lane loops |
| `TableSpec`, `Stores`, `Table`, `TableRuns` | a table as a class over rows, index, stores and counter; every statement; whole runs |
| `OrderBy`, `Select`, `GroupBy` | SELECT over all access paths, ORDER BY, LIMIT, GROUP BY and aggregates |
| `Calendar` | day numbers, dates of the proleptic Gregorian calendar (section 3.2.1 of ISO 8601:2004), date arithmetic |
| `Session` | connections over one engine: current database, transactions by snapshot, the reply cache |
| `Wire`, `WireWriters`, `WireReplies` | packets, length-encoded values, the back-filling writers, what a client reads (MySQL Client/Server Protocol, pages "MySQL Packets" and "Integer Types") |
| `WireBinary`, `WireParams` | NULL bitmaps and binary rows, COM_STMT_EXECUTE parameters (pages "Binary Protocol Resultset Row" and "COM_STMT_EXECUTE") |
| `Dump`, `DumpedRows`, `Restore` | SQL dump, its rows read as literals, and the line-batching restore |

Code that changes state step by step is a class or a method with loops, proved against a function of the old state;
the laws are lemmas about those functions. `Table.Valid()` says that the index is the exact inverse of "position to
key" and every store the projection of the rows: INSERT, UPDATE and CREATE TABLE AS SELECT state when it holds
afterwards, as an if-and-only-if. `Table.Shaped()` is what every statement keeps, on stale tables too.

Where comments and code of the repository differ, the model follows the code: a plain INSERT of an existing key
overwrites the index entry, a scanning UPDATE does not touch the column stores, every `?` of a prepared filter reads
the first parameter, and the reply of a write is cached like any other.

Behaviour that the code probably does not intend, each with the exact condition under which it does no harm: a
rejected `USE` switches the database while the cache still answers for the old one; a DROP or ALTER that stops midway
changes tables under valid caches; a repeated identical write on one connection is answered from the cache and not
executed; a prepared INSERT leaves the key counter where it was; every placeholder of a prepared filter reads the first
parameter; a number written `007` misses its row on the index path, which also ignores OFFSET and LIMIT; a cell of
another type than its column misleads the column scan; NOT is never true as a value; ORDER BY has no order on rows that
go round in a circle; a result of more than 250 columns sends a wrong count; a dump loses line breaks.

`dafny verify dfyconfig.toml` checks the project.

## Model

| member | source | states |
|---|---|---|
| `Numbers.Wrap` | src/engine.rs:2838-2843 | two's complement wrap-around: the one `i64` congruent to the exact result modulo 2^64 |
| `Numbers.ParseIntText` | src/engine.rs:62-70 | printing an `i64` and parsing the text is the identity |
| `Numbers.IntTextInjective` | src/engine.rs:4599-4607 | two integers have one key text only when they are equal |
| `Numbers.IntTextLength` | src/protocol.rs:549-556 | every `i64` prints in 1 to 20 characters, so one length byte is always enough |
| `Comparison.StrCmpTransitive` | src/engine.rs:3692-3693 | text comparison is transitive (with `StrCmpEqual` and `StrCmpReverse`: a total order) |
| `Utf8.EncodeInjective` | src/protocol.rs:229-232 | two texts have the same bytes exactly when they are the same text |
| `Sql.ValuesEqIsSameText` | src/engine.rs:3678-3701 | the evaluator's equality is equality of display texts, NULL apart: what makes a text index usable at all |
| `Evaluators.RowExprAgreesWithWhere` | src/engine.rs:2877-2920 | on comparisons, AND, OR, BETWEEN, IN, IS [NOT] NULL and parentheses the value evaluator gives 0 or 1 and agrees with the filter evaluator |
| `Evaluators.LikeAgreesExactly` | src/engine.rs:3488-3506 | for LIKE the two evaluators agree exactly when both operands are texts or the filter says what the value evaluator's fixed answer is |
| `Evaluators.NotIsReadAsFalse` | src/engine.rs:3806-3857 | on conditions with NOT the value evaluator takes every outermost NOT for false; it agrees with the filter evaluator exactly where writing false for those NOTs changes nothing |
| `Evaluators.BoundFilterIsSubstitution` | src/engine.rs:4708-4750 | evaluating with parameters equals evaluating after writing `bound[0]` for every `?` |
| `Evaluators.OnlyFirstParameterIsRead` | src/engine.rs:4737-4740 | no parameter but the first ever matters to a prepared filter |
| `Evaluators.PositionalExactly` | src/engine.rs:4737-4740 | writing the first parameter for every placeholder gives the filter with the parameters written by position if and only if all parameters used equal the first |
| `Evaluators.PositionalFilter` | src/engine.rs:4708-4750 | a prepared filter then holds of a row exactly when the positional one does |
| `Evaluators.SecondPlaceholderReadsFirstParameter` | src/engine.rs:4737-4740 | a concrete filter with two placeholders that gives the wrong rows |
| `Evaluators.LikeMatchIsCutting` | src/engine.rs:3703-3723 | LIKE holds if and only if the text can be cut into one piece per pattern symbol: any piece for `%`, one character for `_`, one case-equal character otherwise |
| `Evaluators.LikeMatchFindsCut` | src/engine.rs:3707-3721 | a match yields the cut itself |
| `Evaluators.CutMakesLikeMatch` | src/engine.rs:3707-3721 | any cut makes a match, whatever the backtracking tries first |
| `Evaluators.LikeMatchConcat` | src/engine.rs:3703-3723 | matching p + q is matching p with a prefix and q with the rest of some split |
| `Evaluators.DoubledPercent` | src/engine.rs:3710-3713 | doubling a `%` anywhere changes nothing |
| `AccessPaths.InverseMeansDistinct` | src/engine.rs:1358-1360 | an index into which every row was filed is the inverse of "position to key" if and only if no two rows share a key |
| `AccessPaths.WhereComparesKeyText` | src/engine.rs:4610-4633 | a filter key = literal holds of a row exactly when key text and canonical literal text are equal |
| `AccessPaths.IndexPathAgrees` | src/engine.rs:2419-2432 | the index finds exactly the rows the filter selects if and only if the literal is written canonically or neither spelling is a key |
| `AccessPaths.LastRowExactly` | src/engine.rs:1357-1360 | an index into which every row was filed, duplicates included, finds exactly the rows with a key if and only if no two have it |
| `AccessPaths.LastRowPathAgrees` | src/engine.rs:2419-2432 | with such an index the probe agrees with the filter if and only if the literal is canonical and at most one row has the key, or neither spelling is a key |
| `AccessPaths.PaddedLiteralMissesRow` | src/engine.rs:4610-4633 | `WHERE id = 007` finds row 7 by evaluation and nothing by index |
| `AccessPaths.IntScanAgrees` | src/engine.rs:4637-4661 | the integer scan finds the filter's rows if and only if every cell of another type is harmless: NULL by the target's sign, a text `s` when `0 op target` is what comparing `s` with the target's text gives |
| `AccessPaths.TextScanAgrees` | src/engine.rs:4662-4675 | the text scan finds the filter's rows if and only if no NULL or integer meets an empty target and no integer meets its own text |
| `AccessPaths.NegatedLiteralIsFound` | src/engine.rs:3912-3930 | -5 in an integer column is stored as a text: the scan for `= 0` finds its row and the filter does not |
| `AccessPaths.NumberIsMissed` | src/engine.rs:3912-3930 | 5 in a text column is stored as an integer: the scan for `= '5'` misses its row and the filter finds it |
| `SimdScan.MoveMask` | src/simd_scan.rs:88-96 | four 64-bit lanes as a mask of eight bits a lane, set if and only if the lane is a hit |
| `SimdScan.PushLanes` | src/simd_scan.rs:91-96 | one set bit, one position, ascending |
| `SimdScan.ScanI64Avx2` | src/simd_scan.rs:80-150 | four lanes at a time plus the tail give exactly the ascending positions of all hits |
| `SimdScan.ScanI64` | src/simd_scan.rs:50-75 | the vector loop and the scalar one give the same positions |
| `SimdScan.PaddedComparison` | src/simd_scan.rs:184-202 | for two texts of one length of at most 32 bytes, the blocks padded with zeros are equal if and only if the texts are |
| `SimdScan.ScanTextAvx2` | src/simd_scan.rs:180-204 | exactly the positions of the texts equal to the target |
| `SimdScan.ScanText` | src/simd_scan.rs:157-168 | the same for either loop |
| `Stores.PushCells` | src/engine.rs:1367-1385 | every store grows by its own cell, in place |
| `Stores.RemoveCells` | src/engine.rs:1341-1347 | every store loses the entry at one position and keeps the order of the rest |
| `Stores.SwapRemoveCells` | src/engine.rs:2626-2633 | every store moves its last entry into the gap |
| `Stores.RebuildStores` | src/engine.rs:2648-2659 | stores rebuilt from the rows are their projections |
| `Stores.BuildIndex` | src/engine.rs:2641-2646 | filing all rows in order maps each key to the last row that has it |
| `Stores.IndexSwapRemove` | src/engine.rs:2617-2625 | after a swap-remove with the moved row filed anew, the index is again the inverse |
| `Stores.CellInStepExactly` | src/engine.rs:2559-2573 | after a chain of assignments the store entry equals the cell if and only if the last value assigned had the column's type or mirrors to what is there |
| `Stores.UpdateAtExactly` | src/engine.rs:2555-2576 | an indexed UPDATE leaves index and stores exact if and only if the key text stays and every stored cell is kept |
| `Stores.RewriteExactly` | src/engine.rs:2577-2589 | rewriting rows without touching index and stores leaves them exact if and only if each row keeps its key text and its mirrored cells |
| `Stores.AddColumnKeeps` | src/engine.rs:999-1033 | a new column of NULLs with a store of zeros or empty texts keeps everything exact |
| `Stores.DropColumnKeeps` | src/engine.rs:1034-1050 | dropping a non-key column shifts cells, stores and the key position consistently |
| `Stores.RenameColumnKeeps` | src/engine.rs:1051-1058 | renaming touches neither rows nor index nor stores |
| `Tables.Table.constructor` | src/engine.rs:1084-1150 | a new table is valid, empty, with counter 1 |
| `Tables.Table.AsSelect` | src/engine.rs:732-761 | CREATE TABLE AS SELECT gives a valid table if and only if nothing was selected, or the rows have the width of the column list and no column is a key or stored |
| `Tables.Table.AppendRow` | src/engine.rs:1357-1386 | one row is filed in the index and pushed to every store |
| `Tables.Table.RemoveKeyed` | src/engine.rs:1337-1356 | REPLACE drops exactly the row with the key and files the others again; with a stale index it drops some row or none |
| `Tables.Table.InsertOne` | src/engine.rs:1318-1387 | one source row: width, counter, replacement, index and stores; the counter whatever the index |
| `Tables.Table.Insert` | src/engine.rs:1317-1387 | the whole new state; a plain INSERT leaves a valid table valid if and only if its rows fit and their keys, given or drawn, are pairwise distinct and none is in the table before; REPLACE of rows that fit always does |
| `TableSpec.InsertAppendsDrawn` | src/engine.rs:1317-1387 | a plain INSERT appends exactly the rows whose keys, given or drawn from the counter, are settled before anything is filed |
| `TableSpec.FreshKeysExactly` | src/engine.rs:1357-1360 | keys are unique after appending rows if and only if the new ones are pairwise distinct and none was there before |
| `Tables.Table.InsertPrepared` | src/engine.rs:4465-4493 | rows of bound parameters are appended in order, the counter stays; a valid table stays valid if and only if the rows have its width and their keys are pairwise distinct and not in it before |
| `Tables.BindRow` | src/engine.rs:4469-4480 | placeholders take the parameters in order, running on from row to row |
| `Tables.Table.DeleteKeyed` | src/engine.rs:2616-2635 | the last row moves into the gap in rows, index and every store alike |
| `Tables.Table.Retain` | src/engine.rs:2636-2659 | the passing rows stay in order; index and stores are rebuilt from them, so the table is valid if and only if widths and keys are right, however stale they were |
| `Tables.Table.Delete` | src/engine.rs:2609-2662 | rows, count and validity of DELETE on either path; by filter it deletes the right rows even from a stale table |
| `Tables.Table.DeletePrepared` | src/engine.rs:4556-4592 | the prepared DELETE drops exactly the rows its bound filter selects |
| `Tables.Table.Truncate` | src/engine.rs:847-853 | TRUNCATE empties rows, index and stores, keeps the counter and counts the rows |
| `Tables.Table.WriteCell` | src/engine.rs:2562-2571 | a value is copied to a store only when it has the stored type and the position exists |
| `Tables.Table.UpdateAt` | src/engine.rs:2555-2576 | the row is rewritten in place; valid afterwards if and only if it stays filed |
| `Tables.Table.RewriteMatching` | src/engine.rs:2577-2589 | the loop rewrites exactly the selected rows and counts them |
| `Tables.Table.UpdateScan` | src/engine.rs:2577-2589 | valid afterwards if and only if every rewritten row keeps its filing |
| `Tables.Table.Update` | src/engine.rs:2533-2590 | rows, count and the exact validity condition of UPDATE on either path; through a stale index each row is left alone or rewritten |
| `Tables.Table.AppendColumn` | src/engine.rs:999-1033 | ADD COLUMN |
| `Tables.Table.EraseColumn` | src/engine.rs:1034-1050 | DROP COLUMN |
| `Tables.Table.AlterStep` | src/engine.rs:996-1061 | one operation with its error codes 1060, 1091, 1075 and 1054; a failing one changes nothing |
| `Tables.Table.Alter` | src/engine.rs:996-1061 | operations run until one fails; those before it stay done |
| `Tables.AlterStops` | src/engine.rs:996-1061 | nothing after the failing operation has any effect |
| `TableSpec.AlterStopsMidway` | src/engine.rs:996-1061 | an ALTER fails with a changed table if and only if an operation fails and those before it, all of them done, changed the table |
| `TableRuns.ExecuteOne` | src/engine.rs:683-1063 | on a valid table each statement does what it should, and but for REPLACE leaves it valid if and only if a condition read off the state before holds; on any other it stays within `MayBecome` |
| `TableRuns.Execute` | src/engine.rs:1317-1387 | over any run of statements that file rows properly, the index stays the exact inverse and every store a projection; over any run whatsoever the states visited are such that `AnyRunKeepsCounter` applies |
| `TableRuns.IndexedDeleteAgrees` | src/engine.rs:2610-2640 | swap-remove deletes the same multiset of rows as the filter if and only if the probe is exact |
| `TableRuns.IndexedUpdateAgrees` | src/engine.rs:2549-2590 | indexed UPDATE writes to the same rows as the filter if and only if the probe is exact, and then the whole result is the same |
| `TableRuns.ScanUpdateLeavesStoreBehind` | src/engine.rs:2577-2589 | any scanning UPDATE that changes a stored integer breaks the table |
| `TableRuns.ReplaceKeepsOthers` | src/engine.rs:1338-1356 | REPLACE leaves exactly the rows with other keys, in order, and the new row last |
| `TableRuns.InsertKeepsCounter` | src/engine.rs:1318-1365 | INSERT and REPLACE, of new keys or old ones, keep the counter strictly above every key below the maximum, and never lower it |
| `TableRuns.AlterKeepsCounter` | src/engine.rs:996-1061 | ALTER keeps the counter above every key |
| `TableRuns.UpdateKeepsCounter` | src/engine.rs:2533-2590 | an UPDATE keeps the counter above every key if and only if each row it writes has a key below the counter |
| `TableRuns.OtherUpdateKeepsCounter` | src/engine.rs:2533-2590 | so every UPDATE of columns other than the key does, on either path, whatever it leaves in the column stores |
| `TableRuns.PreparedInsertKeepsCounter` | src/engine.rs:4465-4493 | a prepared INSERT keeps the counter above every key if and only if the bound keys are below it already |
| `TableRuns.RunKeepsCounter` | src/engine.rs:1318-1365 | over any run of text and prepared INSERT, REPLACE, UPDATE, DELETE, TRUNCATE and ALTER whose written keys meet these conditions, the counter stays strictly above every key |
| `TableRuns.AnyRunKeepsCounter` | src/engine.rs:1318-1365 | the same when the index no longer leads to the right rows: whichever row a key drops, replaces or rewrites |
| `TableRuns.StepMay` | src/engine.rs:1317-1387 | what each statement should do is among what that run allows it to do |
| `TableRuns.OmittedKeysAreFresh` | src/engine.rs:1318-1331 | an INSERT that omits the key draws a fresh key for each row: no collision with the table or within the statement |
| `TableRuns.PreparedInsertLeavesCounterBehind` | src/engine.rs:4465-4493 | a prepared INSERT followed by a text one gives two rows with key 1 |
| `OrderBy.SortByAllOrders` | src/engine.rs:2474-2498 | stable sorts from the last key to the first order the rows by all keys with their directions, ties in table order, unless three rows go round under the last keys |
| `OrderBy.UniformColumnsSort` | src/engine.rs:2474-2498 | so under any number of keys whose columns hold integers and NULLs, or NULLs and texts that are no whole numbers |
| `OrderBy.NoCircleIsConsistent` | src/engine.rs:2487-2492 | no rows go round under any number of keys when no three texts of a key column form a circle |
| `OrderBy.UniformHasNoCircle` | src/engine.rs:2487-2492 | integers and NULLs form no circle, nor do NULLs and texts that are no whole numbers |
| `OrderBy.SortedExactly` | src/engine.rs:2474-2498 | when no rows go round under the later keys, the result is ordered if and only if none do under all; `GoRoundExactly` reads that in column values |
| `OrderBy.OrderedMeansConsistent` | src/engine.rs:2474-2498 | rows that go round can be arranged in no order |
| `OrderBy.GoRoundExactly` | src/engine.rs:2487-2492 | three rows go round under a list of keys if and only if under the first one two are whole numbers in its order, or equal ones in the order of the other keys, with a third text between them the wrong way round, or all three tie and go round under the others |
| `OrderBy.StableSortOrders` | src/engine.rs:2486-2494 | a stable sort by one key refines what the later sorts had ordered |
| `OrderBy.OrderIsUnique` | src/engine.rs:2474-2498 | there is only one such order, so it determines the result |
| `OrderBy.PreorderExactly` | src/engine.rs:2487-2492 | the comparison is a total preorder on a set of texts if and only if it holds no whole numbers a <= b and other text c with b < c < a as texts |
| `OrderBy.NineTenCircle` | src/engine.rs:2487-2492 | such a circle: "9", "10" and "1a" |
| `OrderBy.SortRows` | src/engine.rs:2474-2498 | the sorting loop computes exactly these repeated stable sorts |
| `OrderBy.SliceIsExact` | src/engine.rs:2505-2521 | OFFSET and LIMIT give the exact slice, cut at the end of the rows |
| `Selects.ProbeFindsMatches` | src/engine.rs:2419-2432 | the index entry is the list of matching positions |
| `Selects.IndexedSelectExactly` | src/engine.rs:2419-2432 | the index path shows what is asked for if and only if nothing is found or OFFSET is absent or 0 and LIMIT absent or at least 1 |
| `Selects.ScanFindsMatches` | src/engine.rs:2434-2462 | the store scan is the list of matching positions |
| `Selects.FindRows` | src/engine.rs:2434-2472 | store scan or evaluator: when the scan would be exact on the rows the stores were made from, it finds the rows of now if and only if the filter takes each row as it took the one before |
| `Selects.StaleScanExactly` | src/engine.rs:2434-2472 | two row lists of one length have the same matching positions if and only if the filter takes them alike row by row |
| `Selects.StaleAfterUpdate` | src/engine.rs:2577-2589 | after a scanning UPDATE that is so if and only if the filter takes each row written to as before |
| `Selects.Assemble` | src/engine.rs:2474-2521 | order, projection, OFFSET and LIMIT in the source's order |
| `Selects.Select` | src/engine.rs:2419-2521 | whichever of index, store scan and evaluator answers, the rows shown are those of the evaluator when the access is exact; on the index path with any ORDER BY, and with OFFSET and LIMIT when they leave the row found |
| `Selects.ExpectedIsOrderedSlice` | src/engine.rs:2474-2521 | with ORDER BY, unless three matches go round, the rows shown are a slice of a permutation of the matches that is ordered by all keys |
| `Selects.UniformOrderIsShown` | src/engine.rs:2474-2521 | so for any ORDER BY over columns of integers and NULLs, or of NULLs and texts that are no whole numbers |
| `GroupBy.KeyCmpTransitive` | src/engine.rs:2066-2071 | group keys are totally ordered (with `KeyCmpEqual` and `KeyCmpReverse`) |
| `GroupBy.GroupRows` | src/engine.rs:2064-2072 | the grouping loop: keys strictly ascending, each group exactly the rows with its key in table order, every row in a group |
| `GroupBy.FileExactly` | src/engine.rs:2067-2072 | filing one row changes the group of its key and no other |
| `GroupBy.GroupsPartition` | src/engine.rs:2064-2072 | no row is lost or counted twice |
| `GroupBy.ExtremeIsExtreme` | src/engine.rs:2004-2021 | MIN and MAX are attained, bound every value, and are NULL exactly when no row has one |
| `GroupBy.GroupSumsAddUp` | src/engine.rs:2138-2153 | the SUMs of the groups add up, with wrap-around, to the ungrouped SUM |
| `GroupBy.GroupExtremesCombine` | src/engine.rs:2154-2166 | the MAX of the group MAXes (MIN of MINs) is the ungrouped one |
| `Calendar.ClosedForm` | src/engine.rs:3559-3575 | the year-by-year count equals 365 days a year plus the Gregorian leap-year formula, for every integer year |
| `Calendar.FourCenturies` | src/engine.rs:3559-3575 | 400 years are 146097 days, from any date |
| `Calendar.DayNumberInjective` | src/engine.rs:3559-3575 | two dates share a day number only when they are the same date |
| `Calendar.YmdToDays` | src/engine.rs:3559-3575 | the two counting loops compute the day number, for any year, month and day |
| `Calendar.MonthAndDay` | src/engine.rs:3550-3556 | the month loop splits the day of a year into a valid month and day |
| `Calendar.DaysToYmd` | src/engine.rs:3543-3557 | both loops end and give a valid date from 1970 on whose day number is the input |
| `Calendar.DateOfIsInverse` | src/engine.rs:3543-3575 | day number to date and back is the identity |
| `Calendar.DateOfDayNumber` | src/engine.rs:3543-3575 | date to day number and back is the identity from 1970 on |
| `Calendar.ParseFormatted` | src/engine.rs:3577-3591 | a printed date reads back |
| `Calendar.ShiftsCompose` | src/engine.rs:3593-3606 | shifting by a and then b is shifting by a + b, and DATEDIFF recovers the shift, while the first result is on or after the epoch |
| `Calendar.ShiftIsRightFromEpoch` | src/engine.rs:3596-3605 | the date reached has the intended day number if and only if that number is not negative |
| `Calendar.ShiftMonthsIsExact` | src/engine.rs:3608-3624 | the month index moves by exactly n; the result is a date if and only if the month count is non-negative or a multiple of 12; the day is only cut to the month's length |
| `Calendar.MonthShiftsCompose` | src/engine.rs:3608-3624 | month shifts add up for days up to 28 |
| `Sessions.Engine.TakeSnapshot` | src/engine.rs:209-217 | the loop copies every table of every database |
| `Sessions.Engine.RestoreSnapshot` | src/engine.rs:219-228 | databases in the snapshot and still there get their tables back, others stay, the generation rises |
| `Sessions.Engine.ExecuteText` | src/engine.rs:241-682 | texts answered before the parser, parse error, privilege check of the user, statements in turn, one more generation for each OK |
| `Sessions.Session.InitDb` | src/server.rs:325-329 | switching the database invalidates the cached hash |
| `Sessions.Session.Query` | src/server.rs:330-385 | the command loop's handling of one query text is one step of the state machine |
| `Sessions.ChangesBump` | src/engine.rs:666-680 | a text raises the generation when it changes a table, if each of its statements, at the catalogue it meets, ends in OK or bumps itself when it changes one |
| `Sessions.AnswerKeepsCoherent` | src/server.rs:367-384 | executing and stamping keep the cached reply of every read-only text correct for the database it was stored under |
| `Sessions.NextKeepsCoherent` | src/server.rs:320-385 | every step of every connection, a rejected USE included, keeps every cache so |
| `Sessions.RunKeepsCoherent` | src/server.rs:305-385 | so does any interleaving of steps by any number of connections |
| `Sessions.HitsAnswerForStampedDb` | src/server.rs:367-374 | after any interleaving whose steps raise the generation when they change a table, a hit on a read-only text returns exactly what executing it now would return under the database the cached reply was stored for |
| `Sessions.StampIsCurrent` | src/server.rs:325-384 | while every USE of another database is accepted, that database is the current one |
| `Sessions.AcceptedMeansOk` | src/engine.rs:241-682 | a USE text gives no error if and only if it is a catalogue query, or it parses and its database is allowed to the user; it changes nothing |
| `Sessions.HitsAreFresh` | src/server.rs:367-374 | when moreover every USE of another database was accepted, a hit on a read-only text returns exactly what executing it now would return and leaves the same tables |
| `Sessions.RollbackRestores` | src/server.rs:348-365 | whatever ran in between, ROLLBACK gives each database present at BEGIN and now its BEGIN tables and leaves other databases alone |
| `Sessions.RepeatIsAHit` | src/server.rs:380-384 | a text sent twice is answered from the cache the second time if and only if the first reply is no error; the tables are then those executing it again would leave if and only if that would change nothing |
| `Sessions.FailedSwitchServesOldRows` | src/server.rs:337-374 | a USE moves the database in any case: for a cached text whose replies differ between the two databases, the next reply is right if and only if the USE is accepted |
| `Sessions.ControlSwitchesNothing` | src/server.rs:337-366 | no text is both a USE and a transaction command |
| `Sessions.SelectOneIsPlain` | src/server.rs:332-336 | `SELECT 1` is neither a USE nor a transaction command |
| `Sessions.DropStopsMidway` | src/engine.rs:783-798 | a multi-name DROP, the same name twice included, fails with changed tables and unchanged generation if and only if a table is missing at its turn and the first one was there |
| `Sessions.DropIsSeen` | src/engine.rs:783-798 | a DROP raises the generation when it changes a table unless it stops midway |
| `Sessions.OkIsSeen` | src/engine.rs:666-680 | a statement that ends in OK raises the generation: no cache answers for what it changed, every cached text is executed anew |
| `Sessions.StatementIsSeen` | src/engine.rs:1317-1387 | so INSERT, REPLACE, UPDATE, DELETE and TRUNCATE on a table of the catalogue: the next reply to a cached text is right, and no hit, from the table as the statement leaves it |
| `Sessions.AlterIsSeen` | src/engine.rs:988-1063 | an ALTER raises the generation when it changes a table unless an operation fails after others that changed it |
| `Sessions.AlterMidwayServesOldRows` | src/engine.rs:988-1063 | for a text cached on one connection to which the ALTER of another matters, the next reply is right if and only if the table was there and every operation could be done, and a hit otherwise |
| `Sessions.DropMidwayServesOldRows` | src/engine.rs:783-798 | for a text cached on one connection to which the tables dropped on another matter, the next reply is right if and only if every table was there at its turn, and a hit otherwise |
| `Wire.UnframeFrame` | src/protocol.rs:9-29 | a framed packet is decoded to its payload and sequence number, and what follows it is left |
| `Wire.UnframeIsStable` | src/protocol.rs:9-17 | bytes that arrive later never change the packet at the front |
| `Wire.PacketsOfFrames` | src/protocol.rs:9-29 | draining concatenated frames gives exactly the packets and leaves nothing |
| `Wire.PacketsInInstalments` | src/server.rs:305-315 | draining after each arrival finds the packets of the whole stream |
| `Wire.LenEncReadsBack` | src/protocol.rs:212-227 | a length-encoded integer reads back, with 0xfb never its first byte |
| `Wire.LenStrReadsBack` | src/protocol.rs:229-232 | a length-encoded string reads back |
| `Wire.TextRowReadsBack` | src/protocol.rs:428-436 | a text row decodes to the same NULLs and strings |
| `Wire.RowIsNotEof` | src/protocol.rs:428-442 | no row payload below 2^24 bytes can be taken for an EOF packet |
| `WireWriters.Buffer.PutLenEnc` | src/protocol.rs:212-227 | the writer appends the length encoding and nothing else |
| `WireWriters.Buffer.FillHeader` | src/protocol.rs:437-441 | filling the reserved bytes by index makes a whole packet of what was appended |
| `WireWriters.Buffer.WritePacketInto` | src/protocol.rs:388-395 | header and payload are appended as one frame |
| `WireWriters.Buffer.WriteEofInto` | src/protocol.rs:399-401 | the nine literal bytes are the frame of an EOF payload |
| `WireWriters.Buffer.WriteColDefInto` | src/protocol.rs:404-425 | a column definition is appended as one frame |
| `WireWriters.Buffer.WriteTextRowInto` | src/protocol.rs:428-442 | a row is appended as one frame |
| `WireWriters.Buffer.WriteI64Digits` | src/protocol.rs:537-557 | digits written after a placeholder byte, then the byte filled in, are a length-encoded string |
| `WireWriters.Buffer.WriteValueText` | src/protocol.rs:561-579 | a value is written as the cell of its display text |
| `WireWriters.Buffer.WriteValueRowInto` | src/protocol.rs:582-591 | a value row is the frame of its displayed row |
| `WireWriters.Buffer.BuildValueResultInto` | src/protocol.rs:594-603 | the zero-copy encoder appends byte for byte what `WriteRowsResult` appends for the displayed rows |
| `WireWriters.Buffer.WriteRowsResult` | src/protocol.rs:484-493 | count, definitions, EOF, rows, EOF under consecutive sequence numbers |
| `WireWriters.Buffer.BuildResultInto` | src/protocol.rs:474-498 | every kind of result as its sequence of packets |
| `WireWriters.SentIsFrames` | src/protocol.rs:486-492 | the numbers wrap: packet i carries (first + i) modulo 256 |
| `WireWriters.Buffer.DecodePacket` | src/protocol.rs:9-17 | takes the first packet out of the buffer, or leaves it alone when it is incomplete |
| `WireWriters.Buffer.Drain` | src/server.rs:315-315 | the draining loop takes out every whole packet and leaves the rest |
| `WireWriters.Receive` | src/server.rs:305-315 | over any chunks the packets received are those of their concatenation |
| `WireReplies.ReplyIsDelivered` | src/protocol.rs:474-498 | a reply cut into any chunks drains to exactly its numbered packets with nothing left over, and a client reads the same result back |
| `WireReplies.NamesReadBack` | src/protocol.rs:404-425 | column definitions decode to the column names |
| `WireReplies.RowsReadBack` | src/protocol.rs:428-442 | row packets up to EOF decode to the rows |
| `WireReplies.OkReadsBack` | src/protocol.rs:144-152 | affected rows and insert id read back |
| `WireReplies.ErrReadsBack` | src/protocol.rs:155-162 | code and message read back |
| `WireReplies.CountIsExact` | src/protocol.rs:488-488 | the one-byte column count is right if and only if there are at most 250 columns |
| `WireReplies.SameBytesSameTable` | src/protocol.rs:484-493 | two result sets with the same bytes are the same names, texts and NULLs |
| `WireReplies.SelectOneBytes` | src/server.rs:25-44 | the literal answer to `SELECT 1` is what the encoder writes for it |
| `WireBinary.SetBitSets` | src/protocol.rs:452-452 | setting a bit in place sets that bit and no other |
| `WireBinary.MarkNulls` | src/protocol.rs:446-454 | bit i + 2 is set if and only if value i is NULL, and no other bit is set |
| `WireBinary.WriteBinaryRowInto` | src/protocol.rs:445-470 | a binary row is one frame of a zero byte, such a bitmap and the non-NULL strings |
| `WireBinary.BinaryRowReadsBack` | src/protocol.rs:445-470 | bitmap and strings decode back to the row for any number of columns |
| `WireParams.ParseExecuteParams` | src/protocol.rs:271-300 | the cursor loop, short payloads included |
| `WireParams.ParamReadsBack` | src/protocol.rs:302-332 | one parameter reads back and the cursor moves over exactly its bytes |
| `WireParams.TextReadsBackExactly` | src/protocol.rs:334-354 | a text is read back below 2^24 bytes; the cursor ends behind it if and only if it is that short |
| `WireParams.DateReadsBack` | src/protocol.rs:356-364 | a date parameter comes back in its printed form, the cursor behind it |
| `WireParams.DatetimeReadsBack` | src/protocol.rs:366-375 | a timestamp parameter comes back in its printed form, the cursor behind it |
| `WireParams.ParamsReadBack` | src/protocol.rs:271-354 | any number of parameters with types sent come back in place, the cursor at the end of the payload |
| `WireParams.ReceivedIsSent` | src/protocol.rs:304-327 | what comes back is what was sent if and only if it is not an unsigned integer with its top bit set |
| `Dump.LinesOfUnlines` | src/engine.rs:2723-2723 | splitting at line breaks inverts printing lines without them |
| `Dump.DumpTable` | src/engine.rs:2682-2713 | the text of a table is its lines |
| `Dump.DumpSql` | src/engine.rs:2665-2717 | the dump is the banner and the lines of every database that is not the system's |
| `DumpedRows.QuotedReadsBack` | src/engine.rs:2706-2706 | reading a quoted text undoes the escaping and stops at the quote that was written |
| `DumpedRows.RowReadsBack` | src/engine.rs:2703-2711 | a printed row is read back as the same values in the same order |
| `Restore.RestoreSql` | src/engine.rs:2720-2740 | the line loop with its batch, its current database and the statements it runs |
| `Restore.FeedStatement` | src/engine.rs:2723-2730 | the lines of a statement end in that statement, lines trimmed and joined by one space |
| `Restore.CreateRestored` | src/engine.rs:2683-2701 | a printed CREATE TABLE is read as one statement |
| `Restore.InsertRestored` | src/engine.rs:2703-2713 | a printed INSERT is read as one statement |
| `Restore.UsedNameIsReadBack` | src/engine.rs:2731-2735 | the name read from a printed USE is the printed name without the backticks at its ends |
| `Restore.ReadBackExactly` | src/engine.rs:2731-2735 | which is the name itself if and only if it has no backtick at either end |
| `Restore.NamesSurviveExactly` | src/engine.rs:2731-2735 | every statement is run under the right database if and only if no name read back matters and is changed |
| `Restore.StatementsTell` | src/engine.rs:2682-2713 | a line break in a printed name or text is in a printed statement |
| `Restore.DumpIsRestored` | src/engine.rs:2665-2740 | restoring a dump runs exactly the statements it printed, in order, each under the right database, if and only if no printed name or text holds a line break and no database name under which something runs has a backtick at either end |
| `Restore.BreakBecomesSpace` | src/engine.rs:2723-2730 | a line break inside a statement comes back as a space |

## Left out

- Floating point and binary values (`Float`, `Bytes`), their comparisons and printing: values are NULL, `i64` and text. Float parameters of COM_STMT_EXECUTE are printed by a function left open.
- Division, modulo and bit operators, and the long list of scalar functions of `eval_row_expr`: comparisons, logic, BETWEEN, IN, LIKE and wrapping `+ - *` only.
- SQL parsing: expressions and statements are datatypes; a number token keeps the text it was written with.
- Case folding, white space and `to_uppercase` outside ASCII; `from_utf8_lossy` is a function assumed only to keep valid UTF-8.
- DISTINCT (applied after LIMIT), UNION (drops adjacent duplicates only), joins, subqueries, HAVING and window functions.
- `select_prepared`, which ignores ORDER BY, OFFSET and LIMIT, and `update_prepared`: on the key path it binds assigned placeholders by position and always reports one row, elsewhere it stores the text `?` for an assigned placeholder.
- `build_binary_result_into` as a whole: its rows are `WireBinary.WriteBinaryRowInto`, its other packets those of `BuildResultInto`.
- The text of catalogue queries (INFORMATION_SCHEMA, SHOW, system variables): the replies given before the parser are a function of text, database and catalogue left open. Accounts and the last insert id are not part of the state, so their replies are taken as unchanging.
- Handshake, TLS, timeouts, the web interface, the firewall: input and output.
- Interleaving inside one statement: each query text is one atomic step, execution and stamping together.
- AVG, COUNT(DISTINCT), GROUP_CONCAT and the aggregates of joined queries.
- Integer overflow is the release build's wrap-around (counter, SUM); a build with overflow checks would stop there.
- Hash functions: `hash_query` is any function; freshness assumes it separates the texts in use and never gives 0.
- Prepared execution, `ensure_database` and user management as events of a session run: they change state without raising the generation; a cached text is then answered as before.
- Reply caching of statements that are not read-only or not deterministic: freshness is about texts whose execution changes no table.
- Iteration order of hash maps: catalogue and tables are dumped in the order given.
- Sessions.HitsAreFresh: assumes that each executed text raises the generation if it changes a table, that the text of a `USE` without semicolons parses to one statement or not at all, that a `USE` of another database is accepted, that hashes separate the texts in use and that the 64-bit generation does not wrap; `HitsAnswerForStampedDb` says what holds without the second and third.
- Sessions.ChangesBump: `DropIsSeen` and `AlterIsSeen` say exactly when the statements that can stop midway are seen; multi-name DROP DATABASE, which can too, is not modelled.
- Sessions.FailedSwitchServesOldRows: `IsAccepted` speaks of the host's parser and privilege check, which are functions left open.
- Calendar.YmdToDays: for a month below 1 the source's loop would run about 2^64 times, and so does the model's; overflow of day sums beyond `i64` is not modelled.
- Calendar.ShiftsCompose: sums of day numbers are exact integers, as long as the intermediate one fits an `i64`.
- OrderBy.SortByAllOrders: the sort is an insertion sort; on rows that go round under one of the key lists it goes through, what the library sort does, a panic included, is not modelled.
- GroupBy.GroupRows: keys are lists of column texts; grouping by expressions is not modelled.
- WireReplies.ReplyIsDelivered: assumes payloads below 2^24 bytes and 1 to 250 columns: larger payloads are not split by the source, and a count of 0 reads as an OK packet.
- WireParams.ParamsReadBack: assumes that types are sent; without them the source takes every parameter for a length-encoded string. Its client sends dates of 4 bytes and timestamps of 7; microseconds, which the source drops, are not sent.
- WireBinary.SetBitSets: a byte is a number here and `|=` with a single bit is arithmetic on it.
- Restore.DumpIsRestored: ends at the statements handed to `execute`, lines joined by one space; that they rebuild the tables would need the parser (for the rows of an INSERT, `DumpedRows.RowReadsBack` says what a parser of literals reads).
- Tables.Table.Insert: for REPLACE validity is claimed only when every source row fits: a later row may replace one of the wrong width.
- TableRuns.RunKeepsCounter: steps are those of a table whose index leads to the right rows; `AnyRunKeepsCounter` is about the others, and there asks the condition on UPDATE of every row.
- Sessions.StatementIsSeen: the statement does what it does on a table whose index leads to the right rows; `OkIsSeen` holds of any outcome.
- Tables.Table.RemoveKeyed: when a stale index leads behind the last row, the source panics; the model removes nothing and goes on.
- Tables.Table.WriteCell: is called for positions inside the row only; an UPDATE of a row shorter than the column list panics in the source and leaves that cell out here.
- Evaluators.PositionalExactly: placeholders stand in comparisons, logic and IS [NOT] NULL, the only places where a prepared filter reads them.
- The server's `SELECT 1` shortcut, `PING` and field lists beyond their bytes.
