# Verified models of the SQLite extension for DuckDB

This project models the parts of DuckDB's SQLite extension whose correctness is hardest to see from the code, and proves
what they promise. The extension attaches SQLite databases to DuckDB, scans their tables in parallel, and pushes whole
queries down by writing them as SQLite's SQL. A pushed query has to mean what DuckDB means by it, and the protocols
around connections and scans have to hold in every interleaving.

`dafny verify dfyconfig.toml` checks everything.

| module | models |
|---|---|
| `LikeMatcher`, `LikeCharacters`, `PatternCompare`, `LikeToGlob` | DuckDB's LIKE as a loop over bytes, its meaning over bytes and over characters (`Utf8`, section 3 of RFC 3629), SQLite's GLOB as it reads bytes, and the rewrite of constant LIKE patterns into GLOB patterns |
| `VfsRegistry`, `VfsProtocol` | the lifetime of the per-context VFS wrappers: the registry as a class, and every interleaving of registrations, teardowns, opens, failed opens and closes |
| `ScanSlices`, `ScanProtocol`, `ScanProgress` | how scanning threads claim row id slices in 64-bit arithmetic, every interleaving of claiming, reading chunks and filtering, and that the threads finish |
| `FilterPushdown` | which column filters become conditions in SQLite, and which stay with the scan |
| `Disjunction` | factoring common conjuncts out of an OR, in three-valued logic |
| `CteScopes` | which CTE or table a name refers to in DuckDB and in SQLite |
| `SelectAliases` | replacing references to select-list aliases |
| `DistinctOn` | DISTINCT ON through `row_number() = 1` |
| `OnConflict` | which VALUES lists of ON CONFLICT DO UPDATE are written, and what that guarantees |
| `DateText`, `DateReading`, `Calendar` | dates and timestamps as text: what they denote, order and casts |
| `Variance` | the one-pass variance aggregate, over the reals |
| `DecimalText`, `Doubles`, `Quantile` | decimal quantile texts, the conversion of integers to doubles, and the discrete quantile aggregate |
| `Transactions`, `TransactionProtocol`, `InMemoryConnection` | transactions, their manager and the single in-memory handle as classes, every interleaving of deferred opens, BEGIN, COMMIT, ROLLBACK and destruction, and what that does to the shared in-memory connection |

`Bytes` and `Permutations` hold what several modules share.

Code that updates fields or works in a loop is a class or a method here, and is proved against a function or a
property; the protocols are state machines whose steps are the atomic sections of the code.

## Findings

Some properties hold only under a condition. The condition is exact - proved in both directions for all inputs - and a
lemma shows an input outside of it.

- The ORDER BY around a DISTINCT ON can order by another column than the one the rows were picked by:
  `SELECT DISTINCT ON (...) a AS b, x AS a ... ORDER BY a` picks rows by `x` and returns them ordered by `b`. It agrees
  if and only if the key is not shadowed (`DistinctOn.OuterKeyAgrees`, `DistinctOn.ShadowedKeyExists`).
- QUALIFY next to HAVING loses the aliases that are hidden by grouped column names, although only HAVING hides them. It
  is right if and only if it uses none of them (`SelectAliases.QualifyBehindHaving`, `SelectAliases.QualifyCanDiffer`).
- SQLite reads U+FFFE and U+FFFF as U+FFFD, and searches U+0080 behind a star as the byte 80. A rewritten pattern agrees
  with LIKE on all texts without NUL if and only if it has no literal U+FFFD, U+FFFE or U+FFFF and no U+0080 directly
  behind wildcards of which one is a `%` (`LikeToGlob.AgreesIffClean`, `LikeToGlob.NoncharactersDiffer`,
  `LikeToGlob.ByteSearchDiffers`).
- GLOB sees a text only up to its first NUL byte. All patterns of that kind agree with LIKE on a text if and only if it
  has no NUL byte (`LikeToGlob.AgreesUnlessNul`, `LikeToGlob.NulByteDiffers`).
- Tearing down a context stays safe if and only if none of its opens is in flight, until sqlite3_open_v2 returns: also an
  open that has reserved a handle and then fails asks its VFS for the last error (`VfsProtocol.TeardownIsExact`,
  `VfsProtocol.UnsafeRun`, `VfsProtocol.UnsafeReservedRun`).
- Comparing integers with floats goes through a double. The comparison orders the values of a group if and only if it
  has no two integers that round to the same float of the group (`Quantile.OrderableExactly`,
  `Quantile.MixedNumbersDoNotOrder` with 2^53 and 2^53 + 1).
- A decimal quantile with up to 19 digits after the point never leaves the range of HUGEINT, and with 20 it can; with 30
  it does if and only if the group has at least 170141184 values (`Quantile.NineteenDigitsFit`,
  `Quantile.TwentyDigitsDoNot`, `Quantile.ThirtyDigitsReach`).
- When a transaction ends, it and with it the in-memory handle stay in use if and only if ROLLBACK fails in
  RollbackTransaction (`Transactions.Manager.RollbackTransaction`, `TransactionProtocol.FailedRollbackKeepsHandle`).
- When COMMIT and the ROLLBACK after it both fail, the handle is released all the same. The connection behind a free
  handle is in a transaction if and only if some transaction left it open, and from then on none can begin
  (`InMemoryConnection.HandedOutIdle`, `InMemoryConnection.StuckForever`, `InMemoryConnection.LeftOpenRun`).

## Model

| member | source | states |
|---|---|---|
| `Bytes.AfterCharMonotone` | src/sqlite_functions.cpp:264-270 | starting one character later never ends earlier, which is why retrying only the last `%` is enough |
| `LikeMatcher.SkipChar` | src/sqlite_functions.cpp:264-270 | `_` takes one byte and all continuation bytes behind it |
| `LikeMatcher.TryConsume` | src/sqlite_functions.cpp:255-288 | a literal, an escaped byte or a `_` is consumed exactly when it fits, and the position in the pattern is then that of the rest of the parsed pattern |
| `LikeMatcher.SkipRun` | src/sqlite_functions.cpp:271-275 | a run of `%` is skipped without changing what can still match, or whether the pattern ends with its escape |
| `LikeMatcher.MatchTail` | src/sqlite_functions.cpp:295-307 | at the end of the string: true, false or the dangling-escape error, exactly as the meaning of the rest of the pattern says |
| `LikeMatcher.ProgressRetry` | src/sqlite_functions.cpp:288-294 | a mismatch rules out only the current start behind the last `%`; what the whole pattern means is still what is left to try |
| `LikeMatcher.LikeMatches` | src/sqlite_functions.cpp:244-308 | terminates and returns the declarative meaning of the pattern for every string, pattern and escape, with the error exactly for a pattern that ends with its escape and is reached |
| `LikeMatcher.ParsePrinted` | src/sqlite_functions.cpp:251-287 | parsing undoes writing a pattern with escapes, so that every pattern is parsed as what it says |
| `LikeCharacters.ParseEncoded` | src/sqlite_functions.cpp:251-287 | parsing the bytes of a UTF-8 pattern gives the encoding of parsing its characters |
| `LikeCharacters.LikeOverCharacters` | src/sqlite_functions.cpp:264-270 | on valid UTF-8, LIKE over bytes is LIKE over code points |
| `LikeToGlob.AppendLiteral` | src/sqlite_sql_writer.cpp:2024-2031 | `*`, `?` and `[` become classes of one character, everything else stays |
| `LikeToGlob.ConvertLikeToGlob` | src/sqlite_sql_writer.cpp:2007-2034 | fails exactly for a pattern that ends with its escape; otherwise writes the GLOB pattern of the parsed LIKE pattern |
| `PatternCompare.ReadEncoded` | src/sqlite/sqlite3.c:32196-32214 | SQLite reads the encoding of every code point as that code point, but U+FFFE and U+FFFF as U+FFFD, and goes on behind it |
| `LikeToGlob.EncodeGlob` | src/sqlite_sql_writer.cpp:2007-2034 | rewriting the bytes of a pattern gives the bytes of its rewritten characters |
| `LikeToGlob.GlobAgrees` | src/sqlite/sqlite3.c:121744-121870 | for every clean pattern and every text, comparing their bytes as SQLite does matches exactly what LIKE matches over characters, and where it gives up early no later start matches either |
| `LikeToGlob.RewritePreservesLike` | src/sqlite_sql_writer.cpp:2053-2069 | for every clean pattern that converts and every valid UTF-8 text, GLOB gives what LIKE gives on the text up to its first NUL |
| `LikeToGlob.AgreesIffClean` | src/sqlite_sql_writer.cpp:2053-2069 | for every pattern that converts, GLOB gives what LIKE gives on all valid UTF-8 texts without NUL if and only if the pattern is clean: no literal U+FFFD to U+FFFF, and no U+0080 directly behind wildcards with a `%` |
| `LikeToGlob.UncleanDiffers` | src/sqlite/sqlite3.c:121744-121870 | the other half: the shortest match of any other pattern, with one character exchanged, matches for GLOB and not for LIKE |
| `LikeToGlob.NoncharactersDiffer` | src/sqlite/sqlite3.c:32207-32211 | an input: U+FFFE GLOB U+FFFF |
| `LikeToGlob.ByteSearchDiffers` | src/sqlite/sqlite3.c:121795-121813 | an input: U+0100 GLOB `*` U+0080 |
| `LikeToGlob.AgreesUnlessNul` | src/sqlite_sql_writer.cpp:2053-2069 | for every valid UTF-8 text, GLOB gives what LIKE gives for all clean patterns that convert if and only if the text has no NUL byte |
| `LikeToGlob.NulByteDiffers` | src/sqlite_sql_writer.cpp:2053-2069 | a text with a NUL byte on which the two differ |
| `VfsRegistry.RegistryData.ReapIdleRetiredWrappers` | src/sqlite_duckdb_vfs_cache.cpp:289-298 | the erase loop keeps exactly the retired wrappers with open handles, in order, and frees exactly the others |
| `VfsRegistry.RegistryData.Register` | src/sqlite_duckdb_vfs_cache.cpp:517-581 | reaps; a new context that SQLite takes is then in the registry, with a new wrapper that is idle and not marked; no other entry changes, and none at all otherwise |
| `VfsRegistry.RegistryData.Unregister` | src/sqlite_duckdb_vfs_cache.cpp:583-602 | reaps; the context is then not in the registry, its wrapper is the last retired one, marked and with its handles; no other entry changes |
| `VfsRegistry.RegistryData.Reserve` | src/sqlite_duckdb_vfs_cache.cpp:712-719 | counts a handle before the file is published |
| `VfsRegistry.RegistryData.ReleaseWrapperHandle` | src/sqlite_duckdb_vfs_cache.cpp:661-679 | drops a handle, and frees the wrapper exactly when it was the last one of a retired wrapper |
| `VfsProtocol.StepInv` | src/sqlite_duckdb_vfs_cache.cpp:517-602 | every step keeps: a wrapper is in at most one of registry and retired, its count is its files plus the opens that hold a handle, an open in flight has its wrapper in the registry, and at most the last retired wrapper is idle |
| `VfsProtocol.RunsAreSafe` | src/sqlite_duckdb_vfs_cache.cpp:661-733 | in every run in which teardown waits until no open of the context is in flight, no step touches a freed wrapper, down to the last error a failing open asks its VFS for |
| `VfsProtocol.CloseCore` | src/sqlite_duckdb_vfs_cache.cpp:853-868 | closing a file is safe and keeps what holds of files and counts, also when it frees the wrapper, whether or not teardown waits |
| `VfsProtocol.AtMostOneIdle` | src/sqlite_duckdb_vfs_cache.cpp:273-298 | in every state of every run at most one retired wrapper has no open handles |
| `VfsProtocol.RegisterReapsAll` | src/sqlite_duckdb_vfs_cache.cpp:521-522 | after any Register no idle retired wrapper remains |
| `VfsProtocol.RegisterIsExact` | src/sqlite_duckdb_vfs_cache.cpp:517-581 | in every reachable state: registering a new context that SQLite takes registers it with a new idle wrapper, no other entry changes, and only idle retired wrappers are freed |
| `VfsProtocol.UnregisterIsExact` | src/sqlite_duckdb_vfs_cache.cpp:583-602 | in every reachable state: teardown takes exactly that context out of the registry and retires its wrapper with all its handles |
| `VfsProtocol.AlwaysUsable` | src/sqlite_duckdb_vfs_cache.cpp:681-733 | in every reachable state every open file can be used and closed, and every open can go on or fail |
| `VfsProtocol.LastCloseFrees` | src/sqlite_duckdb_vfs_cache.cpp:670-678 | a retired wrapper is freed in the step that closes its last handle, and no other close frees anything |
| `VfsProtocol.LastAbandonFrees` | src/sqlite_duckdb_vfs_cache.cpp:725-733 | an open that fails with the last handle of a retired wrapper, in xOpen or behind it, frees it, and no other failing open frees anything |
| `VfsProtocol.NoLeak` | src/sqlite_duckdb_vfs_cache.cpp:587-601 | when everything is closed and torn down, at most one wrapper is left |
| `VfsProtocol.QuiescenceIsNeeded` | src/sqlite_duckdb_vfs_cache.cpp:283-288 | from any reachable state with an open in flight, however far it is and however many handles its wrapper has, tearing down its context leads to a run in which freed memory is touched |
| `VfsProtocol.TeardownIsExact` | src/sqlite_duckdb_vfs_cache.cpp:583-602 | after a teardown every continuation is safe if and only if no open of the context was in flight |
| `VfsProtocol.UnsafeRun` | src/sqlite_duckdb_vfs_cache.cpp:283-288 | such a run from the start: register, resolve, tear down, register another context, reserve |
| `VfsProtocol.UnsafeReservedRun` | src/sqlite/sqlite3.c:171802-171808 | another: register, resolve, reserve, tear down, fail in xOpen, and ask for the last error |
| `ScanSlices.GetRowIdInfo` | src/sqlite_db.cpp:588-600 | sliced exactly when the row ids are not negative, increase and span less than 20000000000000; the bounds are then those of the table |
| `ScanSlices.WrapIsModulo` | src/sqlite_scanner.cpp:209-222 | the unsigned arithmetic of the claims is arithmetic modulo 2^64 |
| `ScanSlices.GlobalState.constructor` | src/sqlite_scanner.cpp:260-284 | the scan starts one before the minimum row id, with the initial group size |
| `ScanSlices.GlobalState.ClaimNextSlice` | src/sqlite_scanner.cpp:197-225 | the claim and the new state, in wrapping 64-bit arithmetic |
| `ScanSlices.ClaimExact` | src/sqlite_scanner.cpp:209-224 | no claim wraps around: it is the claim of unbounded arithmetic and its row ids fit a signed 64-bit integer |
| `ScanSlices.ClaimBounded` | src/sqlite_scanner.cpp:209-224 | every claim keeps the group size at most the larger of its initial value and twice the distance already claimed |
| `ScanProtocol.FillChunk` | src/sqlite_scanner.cpp:408-505 | a chunk is the next rows, as many as fit the vector or are left, and the statement is done exactly when fewer were left |
| `ScanProtocol.ApplyFilters` | src/sqlite_scanner.cpp:338-356 | narrowing filter by filter, with the early exit, keeps exactly the rows that pass all filters |
| `ScanProtocol.ClaimMoves` | src/sqlite_scanner.cpp:197-225 | what a claim hands out is exactly what it takes from the unclaimed rows |
| `ScanProtocol.StepInv` | src/sqlite_scanner.cpp:396-507 | every step of every thread conserves rows: unclaimed, waiting or emitted |
| `ScanProtocol.ExactlyOnce` | src/sqlite_scanner.cpp:396-507 | when all threads have finished, each row that passes the filters was emitted exactly once, and nothing else |
| `ScanProtocol.BoundTableIsValid` | src/sqlite_db.cpp:574-601 | whatever rows a table has, the bounds that it is bound to leave none of them out |
| `ScanProtocol.BoundScanIsExact` | src/sqlite_scanner.cpp:85-89 | a scan bound by the minimum and maximum of any table emits exactly once each of its rows that pass all filters |
| `ScanProtocol.NeverTwice` | src/sqlite_scanner.cpp:396-507 | in every state of every run no row was emitted twice |
| `ScanProtocol.SliceBounds` | src/sqlite_scanner.cpp:209-224 | in every run: disjoint slices in order, at most span over initial group size of them (rounded up), within 64 bits |
| `ScanProtocol.ExhaustedCovers` | src/sqlite_scanner.cpp:206-208 | when the claims are exhausted the slices cover every row id from minimum to maximum |
| `ScanProgress.StepTakes` | src/sqlite_scanner.cpp:396-507 | every step of a thread takes from what is unclaimed, or else from what the threads have left to do, so that no scan goes on forever |
| `ScanProgress.ScanCanFinish` | src/sqlite_scanner.cpp:396-507 | every run, however far it is, can be continued until all its threads have finished, and has then emitted exactly the rows that pass |
| `FilterPushdown.TransformFilter` | src/sqlite_filter_pushdown.cpp:67-87 | appends the conditions of the AND tree in order and says whether they are the whole filter |
| `FilterPushdown.TransformFilters` | src/sqlite_filter_pushdown.cpp:116-153 | the conditions of all pushable columns, and the filters that stay with the scan |
| `FilterPushdown.PushedMeaning` | src/sqlite_filter_pushdown.cpp:67-87 | when its translated leaves without NUL mean the same in SQLite, a filter implies its pushed conditions; if it is complete they imply all of it but internal leaves |
| `FilterPushdown.PushdownSandwich` | src/sqlite_filter_pushdown.cpp:116-153 | no row that passes the filters is lost, and a kept row passes everything but internal leaves, also when SQLite compares some columns differently |
| `FilterPushdown.PushdownExact` | src/sqlite_filter_pushdown.cpp:116-153 | when internal leaves only prune, the kept rows are exactly those that pass all filters |
| `FilterPushdown.AllPushedExactly` | src/sqlite_filter_pushdown.cpp:116-153 | the conditions are those of the translated leaves without NUL of the columns that can be pushed, of all of them and no others |
| `FilterPushdown.ResidualExactly` | src/sqlite_filter_pushdown.cpp:116-153 | the scan keeps a filter exactly when its column cannot be pushed or some leaf of it is neither translated nor internal |
| `Disjunction.CommonConjuncts` | src/sqlite_sql_writer.cpp:1457-1466 | exactly the conjuncts that every disjunct has, each once |
| `Disjunction.SplitDisjunct` | src/sqlite_sql_writer.cpp:1479-1485 | a disjunct has the value of its common conjuncts and its rest, also when conjuncts are repeated |
| `Disjunction.FactorOut` | src/sqlite_sql_writer.cpp:1450-1493 | distributivity over any number of disjuncts, in three-valued logic |
| `Disjunction.Factored` | src/sqlite_sql_writer.cpp:1473-1492 | the common conjuncts and the OR of the rests have the value of the disjunction |
| `Disjunction.FactoredAway` | src/sqlite_sql_writer.cpp:1486-1489 | a disjunct with nothing but common conjuncts makes them the whole value |
| `Disjunction.WriteDisjunction` | src/sqlite_sql_writer.cpp:1450-1493 | the written OR has the value of the OR under every assignment; it is a conjunction exactly when the disjuncts have a conjunct in common, and then each common conjunct is written in it once for all |
| `Disjunction.WriteCondition` | src/sqlite_sql_writer.cpp:1414-1425 | a written condition of any nesting has the value of the condition under every assignment |
| `CteScopes.CheckCteMap` | src/sqlite_sql_writer.cpp:3536-3556 | accepts a WITH list exactly when no definition refers to the name of a later CTE |
| `CteScopes.WalkFindsFree` | src/sqlite_sql_writer.cpp:195-317 | the walk with a scope reports exactly the free unqualified names, at any depth |
| `CteScopes.RefersToIsFree` | src/sqlite_sql_writer.cpp:3546-3555 | a definition is refused exactly when a later CTE's name is free in it |
| `CteScopes.AcceptQuery` | src/storage/sqlite_capabilities.cpp:1142-1189 | accepts a query exactly when all its WITH lists are accepted and no qualified table has the name of a CTE in scope |
| `CteScopes.AgreeQuery` | src/sqlite_sql_writer.cpp:3536-3556 | in surroundings that agree on the free names, every reference of an accepted query is to the same CTE or table |
| `CteScopes.SameReferences` | src/sqlite_sql_writer.cpp:3536-3556 | every reference of an accepted query that SQLite prepares is to the same CTE or table in both systems |
| `CteScopes.AcceptedExactly` | src/sqlite_sql_writer.cpp:3536-3556 | the modelled checks are exact: of the queries that SQLite prepares, those are accepted in which every reference is to the same CTE or table in both systems, and no others |
| `CteScopes.ForwardReferenceMatters` | src/sqlite_sql_writer.cpp:3546-3555 | a list that is refused for a later CTE does refer to something else in SQLite, also when its definitions are refused themselves |
| `SelectAliases.CollectAliases` | src/sqlite_sql_writer.cpp:3748-3754 | each alias stands for its first item |
| `SelectAliases.ExpandItemsInPlace` | src/sqlite_sql_writer.cpp:3803-3817 | items are expanded in order, each seeing the ones before it, and keep the names of their result columns: their alias, or else the name or text they had |
| `SelectAliases.ExpandGroupList` | src/sqlite_sql_writer.cpp:3822-3836 | names are replaced; refused exactly when a larger expression contains an alias |
| `SelectAliases.ExpandSelectAliases` | src/sqlite_sql_writer.cpp:3747-3864 | each clause is expanded by its rule, items keep their names, and a query without FROM or without alias references stays as it is |
| `SelectAliases.ItemsKeepMeaning` | src/sqlite_sql_writer.cpp:3803-3817 | the expanded items mean what evaluating the items one after the other means |
| `SelectAliases.ExpansionKeepsMeaning` | src/sqlite_sql_writer.cpp:3747-3864 | in every clause the expanded query means, over columns alone, what names stand for in DuckDB: a column of the clause, or else the first item with that alias |
| `SelectAliases.RulesAgree` | src/sqlite_sql_writer.cpp:3759-3855 | what a name stands for: in items, WHERE and GROUP BY a column of FROM comes first; in HAVING the first item with that alias does, unless a group is, or by position stands for, a column of that name |
| `SelectAliases.RefusedExactly` | src/sqlite_sql_writer.cpp:3822-3836 | refused exactly when a GROUP BY expression that is not just a name uses a name that stands for an item |
| `SelectAliases.GroupsKeepMeaning` | src/sqlite_sql_writer.cpp:3822-3836 | a GROUP BY that is not refused groups by what DuckDB groups by |
| `SelectAliases.QualifyBehindHaving` | src/sqlite_sql_writer.cpp:3837-3859 | next to HAVING, QUALIFY follows its own rule if and only if it uses no alias hidden by a grouped column |
| `SelectAliases.QualifyCanDiffer` | src/sqlite_sql_writer.cpp:3837-3859 | a query whose QUALIFY does use one |
| `DistinctOn.KeepFirstMembers` | src/sqlite_sql_writer.cpp:3636-3677 | keeping the first row per group keeps exactly the rows without an earlier row of their group |
| `DistinctOn.SortedOnce` | src/sqlite_sql_writer.cpp:3729-3737 | a set of rows has one ordered enumeration |
| `DistinctOn.WrappedIsDistinctOn` | src/sqlite_sql_writer.cpp:3636-3737 | for every input and every total order that breaks ties alike, filtering by row number and sorting again gives row by row the first of each group |
| `DistinctOn.TiesMayDiffer` | src/sqlite_sql_writer.cpp:3636-3737 | when the window and the outer sort break the ties of the ORDER BY differently, the result is that of keeping the first rows in some total order that refines the ORDER BY |
| `DistinctOn.OneRowPerGroup` | src/sqlite_sql_writer.cpp:3636-3677 | exactly one row per group, its first; NULL targets form one group |
| `DistinctOn.ResolveKey` | src/sqlite_sql_writer.cpp:3641-3661 | a key stands for a result column by position or name first, and for itself otherwise |
| `DistinctOn.OuterOrderKey` | src/sqlite_sql_writer.cpp:3702-3728 | the position of a constant key, or the first result column that has the name or the expression of the key, if there is one |
| `DistinctOn.OuterKeyAgrees` | src/sqlite_sql_writer.cpp:3702-3728 | a query is refused exactly when what a key stands for is no result column; otherwise the ORDER BY around it orders by that if and only if the key is not shadowed |
| `DistinctOn.ShadowedKeyExists` | src/sqlite_sql_writer.cpp:3702-3728 | a query with a shadowed key, ordered by another column than it is picked by |
| `OnConflict.KeyIndexes` | src/sqlite_sql_writer.cpp:4464-4476 | the positions of the conflict columns; refused exactly when one is not inserted |
| `OnConflict.RowKey` | src/sqlite_sql_writer.cpp:4478-4490 | the cast key of a row; refused exactly when the row has none |
| `OnConflict.CheckKeys` | src/sqlite_sql_writer.cpp:4477-4501 | accepts exactly the lists with constant keys of which no two conflict, NULL conflicting with nothing |
| `OnConflict.CheckedIsAccepted` | src/sqlite_sql_writer.cpp:4477-4501 | the check of the rows accepts exactly the lists of inserts without duplicate keys |
| `OnConflict.KeyIsOfRow` | src/sqlite_sql_writer.cpp:4477-4490 | the key that is checked is that of the inserted row: the values of its conflict columns |
| `OnConflict.OneByOneIsAtOnce` | src/sqlite_sql_writer.cpp:4459-4501 | on an accepted list, row-at-a-time execution gives the table of applying all rows to the original at once |
| `OnConflict.OrderDoesNotMatter` | src/sqlite_sql_writer.cpp:4459-4501 | every order of an accepted list is accepted and gives the same table |
| `OnConflict.AcceptedTouchesOnce` | src/sqlite_sql_writer.cpp:4459-4501 | a list is accepted if and only if it changes no table row twice |
| `OnConflict.ReplacedColumns` | src/sqlite_sql_writer.cpp:4502-4521 | INSERT OR REPLACE sets exactly the inserted columns that are not in the conflict target |
| `OnConflict.ReplaceKeepsKey` | src/sqlite_sql_writer.cpp:4502-4521 | replacing takes the inserted columns and leaves the conflict key and the other columns as they are |
| `DateText.DayNumberOrder` | src/sqlite_functions.cpp:49-76 | days are numbered in the order of year, month and day |
| `Calendar.DayNumberIsGregorian` | src/sqlite_functions.cpp:49-76 | days have the numbers that the closed formula of the Gregorian calendar gives them |
| `Calendar.EveryNumberIsADay` | src/sqlite_functions.cpp:49-76 | no day is left out |
| `DateText.DateTextOrder` | src/sqlite_functions.cpp:49-76 | byte order of canonical date texts is the order of the days, and texts determine dates |
| `DateText.TimestampTextOrder` | src/sqlite_functions.cpp:49-76 | the same for timestamps to the microsecond, with fractions of any length |
| `DateReading.CanonicalTextExactly` | src/sqlite_functions.cpp:49-76 | a text is the one written for a date or timestamp if and only if it reads as that value: fields, separators, and one to six digits of a fraction without trailing zeros |
| `DateText.DateToTimestampText` | src/sqlite_sql_writer.cpp:983-987 | appending midnight to the text of a date is the text of its cast, and both exist for the same dates |
| `DateText.TimestampCast` | src/sqlite_sql_writer.cpp:988-992 | only the date of a timestamp has the day number that dividing its microseconds gives |
| `DateText.TimestampToDateText` | src/sqlite_sql_writer.cpp:988-992 | the first ten characters of the text of a timestamp are the text of the date with that day number |
| `DateText.FiveDigitYearsDoNotOrder` | src/sqlite_functions.cpp:69-73 | the text of a five-digit year sorts before the text of a date exactly when its first four digits are below the date's year (before all of 9999 up to 99989), hence the limit of 9999 |
| `Variance.VarianceState.Add` | src/sqlite_functions.cpp:1324-1340 | one row: NULL changes nothing, a value takes one step |
| `Variance.VarianceState.Final` | src/sqlite_functions.cpp:1345-1358 | NULL without enough values, otherwise the squared deviations over n - 1 or n |
| `Variance.RunIsTextbook` | src/sqlite_functions.cpp:1318-1340 | after any inputs, mean times count is the sum, and dsquared the squared deviations from the mean, of the values that are not NULL |
| `Variance.Aggregate` | src/sqlite_functions.cpp:1318-1362 | stepping through a group gives the textbook sample or population variance |
| `Variance.VarianceIgnoresOrder` | src/sqlite_functions.cpp:1318-1362 | any order of the rows, with NULLs anywhere, gives the same result |
| `DecimalText.ParseDecimalQuantile` | src/sqlite_functions.cpp:1687-1707 | accepts exactly the decimals of 1 to 30 digits from 0 to 1; the quotient is what the text denotes; nothing leaves the range of HUGEINT |
| `Quantile.CompareIsOrder` | src/sqlite_functions.cpp:1574-1581 | memcmp and then the lengths order byte strings byte by byte, prefixes first |
| `Quantile.StringsCompare` | src/sqlite_functions.cpp:1573-1581 | texts and blobs compare by all their bytes, whichever of the two they are |
| `Quantile.NumbersCompare` | src/sqlite_functions.cpp:1556-1572 | numbers are below texts and blobs, integers compare by value, and with a float by their doubles |
| `Doubles.ToDoubleMonotone` | src/sqlite_functions.cpp:1565-1567 | converting integers to doubles, to nearest with ties to even, never swaps two integers |
| `Doubles.ExactUpTo` | src/sqlite_functions.cpp:1565-1567 | the conversion is exact up to 2^53 in magnitude, and not at 2^53 + 1 |
| `Doubles.ToDoubleNearest` | src/sqlite_functions.cpp:1565-1567 | the conversion goes to the nearest number of 53 significant bits, and of two equally near ones to the even one |
| `Quantile.CompareTransitive` | src/sqlite_functions.cpp:1554-1582 | for all values of all storage classes, the comparison is transitive if and only if they are not two integers in the wrong order around the float that both convert to |
| `Quantile.CompareSwapped` | src/sqlite_functions.cpp:1554-1582 | swapping two values swaps the sign, for all values |
| `Quantile.MixedNumbersDoNotOrder` | src/sqlite_functions.cpp:1559-1568 | 2^53 + 1, the float 2^53 and 2^53: each at most the next, and the first above the last |
| `Quantile.OrderableExactly` | src/sqlite_functions.cpp:1743-1746 | the comparison orders a group, as the sort demands, if and only if no values of it clash in that way |
| `Quantile.SafeGroups` | src/sqlite_functions.cpp:1743-1746 | groups without floats, without integers, or with integers up to 2^53 in magnitude never clash |
| `Quantile.IntegerArithmeticIsExact` | src/sqlite_functions.cpp:1749-1754 | the integer quotient gives n * q rounded up, for every count and decimal quantile |
| `Quantile.IndexBounds` | src/sqlite_functions.cpp:1748-1761 | the index is in range, and one less than the larger of 1 and n * q rounded up |
| `Quantile.IndexedIsQuantile` | src/sqlite_functions.cpp:1741-1762 | whatever sorted permutation the sort leaves, the value at the index is the least value with at least n * q values not above it |
| `Quantile.QuantileIsUnique` | src/sqlite_functions.cpp:1741-1762 | there is only one such value, up to values that compare equal |
| `Quantile.QuantileIgnoresOrder` | src/sqlite_functions.cpp:1741-1762 | it does not depend on the order of the values |
| `Quantile.QuantileState.Step` | src/sqlite_functions.cpp:1709-1731 | a row is refused exactly when its quantile is not a number from 0 to 1; otherwise its value is appended |
| `Quantile.QuantileState.Final` | src/sqlite_functions.cpp:1733-1762 | NULL for no values, an error exactly when the arithmetic is out of range, and otherwise the discrete quantile of the values, for every group that the comparison orders |
| `Quantile.NineteenDigitsFit` | src/sqlite_functions.cpp:1749-1754 | with up to 19 digits after the point no number of values is out of range |
| `Quantile.TwentyDigitsDoNot` | src/sqlite_functions.cpp:1749-1754 | with 20 digits the largest group is out of range |
| `Quantile.ThirtyDigitsReach` | src/sqlite_functions.cpp:1749-1754 | with all 30 digits a group is out of range if and only if it has at least 170141184 values |
| `Transactions.Catalog.GetInMemoryDatabase` | src/storage/sqlite_catalog.cpp:91-102 | hands out the connection exactly when it is not in use, and marks it in use |
| `Transactions.Catalog.ReleaseInMemoryDatabase` | src/storage/sqlite_catalog.cpp:104-114 | fails exactly when the connection is not in use |
| `Transactions.Transaction.Start` | src/storage/sqlite_transaction.cpp:83-90 | BEGIN at once for local and in-memory databases, nothing for remote ones |
| `Transactions.Transaction.Commit` | src/storage/sqlite_transaction.cpp:91-96 | COMMIT exactly when BEGIN succeeded |
| `Transactions.Transaction.Rollback` | src/storage/sqlite_transaction.cpp:97-101 | ROLLBACK exactly when BEGIN succeeded |
| `Transactions.Transaction.GetDB` | src/storage/sqlite_transaction.cpp:103-127 | returns a connection that has begun, or leaves the transaction as it was |
| `Transactions.Manager.StartTransaction` | src/storage/sqlite_transaction_manager.cpp:10-17 | a new transaction exactly when the handle, the open and BEGIN allow it; otherwise nothing changes and the handle is given back |
| `Transactions.Manager.CommitTransaction` | src/storage/sqlite_transaction_manager.cpp:19-34 | the transaction is gone whatever COMMIT did, and a failed COMMIT is followed by one ROLLBACK |
| `Transactions.Manager.RollbackTransaction` | src/storage/sqlite_transaction_manager.cpp:36-40 | the transaction is gone exactly when ROLLBACK did not fail |
| `Transactions.Manager.ExtractAndClose` | src/storage/sqlite_transaction_manager.cpp:42-57 | destroys the transaction and gives the handle back, which is always in use then |
| `Transactions.WellUsed` | src/storage/sqlite_transaction.cpp:83-127 | a statement history without misuse has at most one successful BEGIN, COMMIT and ROLLBACK only behind it, and nothing behind a success of those |
| `Transactions.LeavesOpenExactly` | src/storage/sqlite_transaction_manager.cpp:22-31 | a transaction leaves its connection open if and only if a BEGIN succeeded and every COMMIT and ROLLBACK behind it failed and left it open |
| `TransactionProtocol.StepInv` | src/storage/sqlite_transaction.cpp:62-127 | every step of every thread keeps: the lock has one holder, the fields say how far it is, and the flag follows the live transactions |
| `TransactionProtocol.RunsAreSafe` | src/storage/sqlite_catalog.cpp:91-114 | in every run the in-memory flag is set exactly when one transaction lives, never more than one does, and no transaction, alive or destroyed, misused its connection |
| `TransactionProtocol.OneBeginPerTransaction` | src/storage/sqlite_transaction.cpp:83-127 | in every run each transaction has at most one successful BEGIN, and COMMIT and ROLLBACK only behind it |
| `TransactionProtocol.ReleaseNeverFails` | src/storage/sqlite_transaction.cpp:79-81 | in every run the destructor finds the handle in use |
| `TransactionProtocol.ReturnedIsBegun` | src/storage/sqlite_transaction.cpp:103-127 | whichever thread opened it, a connection that GetDB returns is open, its BEGIN succeeded, and no COMMIT or ROLLBACK has ended it with success |
| `TransactionProtocol.ReturnedStaysOpen` | src/storage/sqlite_transaction.cpp:103-127 | it stays open as long as the transaction lives |
| `TransactionProtocol.OneThreadOpens` | src/storage/sqlite_transaction.cpp:108-126 | one thread at a time opens a connection, and none once one is published |
| `TransactionProtocol.AloneIsGetDB` | src/storage/sqlite_transaction.cpp:103-127 | the steps of a thread that nobody interferes with do what the method does |
| `TransactionProtocol.AloneIsManager` | src/storage/sqlite_transaction_manager.cpp:10-40 | the steps of starting, committing and rolling back send what the methods of the manager send, and end where those end |
| `TransactionProtocol.ReturnsExactly` | src/storage/sqlite_transaction.cpp:103-127 | a call of GetDB returns a connection exactly when it leaves with one published |
| `TransactionProtocol.ConstructsExactly` | src/storage/sqlite_transaction.cpp:62-73 | a transaction cannot be constructed exactly when it is the second on an in-memory database or a local file cannot be opened, and then nothing changes |
| `TransactionProtocol.FailedRollbackKeepsHandle` | src/storage/sqlite_transaction_manager.cpp:36-40 | after a failed ROLLBACK a new transaction on an in-memory database is refused |
| `InMemoryConnection.HandedOutIdle` | src/storage/sqlite_transaction_manager.cpp:19-34 | in every run: when the in-memory handle is free, the shared connection is in a transaction if and only if some transaction left it open |
| `InMemoryConnection.ReturnedInTransaction` | src/storage/sqlite_transaction.cpp:103-127 | in every run: the connection that GetDB returns is in a transaction if and only if every COMMIT and ROLLBACK behind its BEGIN failed and left it open |
| `InMemoryConnection.StuckForever` | src/storage/sqlite_transaction_manager.cpp:19-34 | once it is so it stays so, and no further transaction begins |
| `InMemoryConnection.LeftOpenRun` | src/storage/sqlite_transaction_manager.cpp:19-34 | a run to that state: COMMIT fails, ROLLBACK fails, the handle is released |

## Left out

- DuckDB's binder, parser, casts, date library and type inference: column lookup, constant folding and casts are given as
  functions or inputs.
- SQLite beyond GLOB, the VFS calls of an open, WITH scoping, three-valued logic, upserts and row numbers, which are
  specification functions here; the loops of its GLOB are recursive functions (`PatternCompare`).
- Floating point rounding: variance and the numeric quantile argument are over the reals; `avg`, `quantile_cont`,
  `duckdb_round` and the square root of the standard deviation are not modelled.
- Quantile.QuantileState.Final: requires that the comparison orders the group, which is what `std::sort` requires; reports a product outside the range of HUGEINT as an error; what DuckDB's HUGEINT
  multiplication does then is not part of this model, and neither is the order `std::sort` leaves equal values in, for
  which any is allowed.
- DateText.DateTextOrder: infinite dates and dates before the year 1 have no canonical text in the code and none here.
- CteScopes.AcceptQuery: compares qualified table names with the CTE names in scope of the same query; the code also
  compares them with CTE names of nested queries and so refuses only more, which `AcceptedExactly` shows to be without
  need. `QualifyTables` rewrites names by path and is
  not modelled.
- CteScopes.SameReferences: takes as a hypothesis that no CTE without RECURSIVE refers to its own name. The code leaves that
  case to SQLite's prepare, which refuses most of it; in the right arm of a compound SELECT SQLite takes it as recursive.
- DistinctOn.OuterOrderKey: ORDER BY ALL and LIMIT are not modelled, and equality of expressions is taken to ignore
  aliases.
- OnConflict.OneByOneIsAtOnce: other unique constraints of the table, and SET clauses that change the key, are not
  modelled. A NULL key conflicts with nothing here; for an INTEGER PRIMARY KEY SQLite assigns a row id instead, which a
  later row of the list can hit.
- FilterPushdown.TransformFilters: which columns and constants can be pushed (`CanPushColumn`, `HasNulByteConstant`) and
  the translation of a leaf are inputs; a translation that is not empty is taken to be equivalent to its leaf.
- TransactionProtocol.StepInv: assumes sequentially consistent steps, and that a commit or rollback comes after the scans
  of the transaction have joined, as the code's comments state.
- VfsProtocol.RunsAreSafe: takes as a guard of teardown that no open of the context is in flight, which is what the
  code's comments ask of DuckDB.
- LikeToGlob.RewritePreservesLike: a GLOB pattern of more than 50000 bytes is an error in SQLite, and values that are not
  text are not modelled.
- Transactions.Manager.StartTransaction: allocation failures are not modelled; one in the constructor, behind taking the
  in-memory handle, would keep the handle in use.
- ScanProtocol.ExactlyOnce: the rows of the table are fixed during the scan; the threads read them over separate
  connections, and what those see of concurrent writes is not modelled.
- Disjunction.WriteCondition: conditions are boolean here; the cast of other conditions is not modelled.
- Variance.VarianceState.Final: the square root of the standard deviations is not modelled.
- HTTP error classification, sidecar probing, URL building, error texts and the reads of the VFS: string matching and I/O.
- The per-transaction catalog map, DDL text, attach options, settings, EXPLAIN, the function lists and the insert, update
  and delete operators: wiring, or easy members.
