# KernelDB in Dafny

A model of the storage engine of KernelDB and proofs about it. The modules follow the program:

| module | program |
|---|---|
| `BTree`, `BTreeMap`, `BTreeRepeats` | the B+ tree of `index.c` as a value: one operation, whole runs, repeated keys |
| `LinkedIndex` | the same tree as linked nodes with arrays that are shifted in place, proved against `BTree` |
| `Bytes`, `Checksum`, `Page`, `Disk` | little-endian fields, the shift-xor checksum, the slotted page in its byte buffer, the table file |
| `PoolState`, `Lru`, `Buffer` | the seven-frame buffer pool: its abstract state, its replacement policy, its code |
| `Heap`, `TablePages`, `TableLayer`, `TableRuns` | rows at locations, rows behind the pool, the table operations with their index, whole runs |
| `Wal`, `WalProtocol`, `Insertions`, `Session`, `Recovery`, `CrashRecovery` | log records and the log file, statements as steps, what the steps insert, the dispatcher's transactions, `wal_recover`, crash and restart together |
| `Lexer`, `Spelling`, `Parser`, `ParserCode`, `SqlRoundTrip`, `SqlTexts` | the tokeniser, how tokens are written, the parser's meaning, the parser's code, statements written and read back, which texts are accepted |
| `RowCodec` | `serialise_row` and the split-and-rejoin loop of UPDATE |

Code that changes things in place is a class or a method over arrays. Each such method is proved
against a function of its input or of the old state, and what the program is for is proved of those
functions. Three layers are joined end to end: the index of a table agrees with its rows through the
pages, the pool and the file (`TableLayer`, `TableRuns`); a restart after a crash brings every table
to its rows plus what the committed INSERT statements inserted, within the limits that the code has
(`CrashRecovery.Restart`, `CrashRecovery.InsertsComeBack`); a statement survives every way of writing it down
(`SqlRoundTrip.RoundTrip`).

Constants are those of the headers with their usual alignment: a page of 4096 bytes has a header of 40
and slots of 6, a log record has 344. `keyOf`, the match predicate `p` and the rewriting `f` of a row
are parameters, so everything about tables holds for every schema and every WHERE clause.

## Model
| member | source | states |
|---|---|---|
| LinkedIndex.Index.constructor | src/index/index.c:130-137 | a new index is one empty leaf, stores the empty map and can be searched |
| LinkedIndex.Index.Search | src/index/index.c:165-176 | as long as the tree is in order, the answer is the map's: the location bound to the key, or not found |
| LinkedIndex.Index.Insert | src/index/index.c:145-163 | for every key: the linked nodes again hold a tree without over-full node and with all leaves at one depth, exactly one entry with that key is added, and the counters are right; an index that could be searched still can be exactly when the key was absent, and then stores the old map plus the binding |
| LinkedIndex.Index.Delete | src/index/index.c:178-193 | exactly the binding of the key goes, the result says whether there was one, the nodes stay the same objects |
| LinkedIndex.Index.LeafWalk | src/index/index.c:223-236 | following `next` from the leftmost leaf yields the keys of the map, each once and increasing |
| LinkedIndex.Index.Balanced | src/index/index.c:56-71 | 2^(height + 1) is at most the number of insertions ever made, and `node_count` is 1 + insertions + height and never below the number of nodes |
| LinkedIndex.ChainAcyclic | src/index/index.c:36-54 | no leaf occurs twice along the chain |
| BTreeRepeats.InsertExactly | src/index/index.c:79-128 | on an ordered tree and for every key: the result is ordered if and only if the key was absent; then the map gains the binding; in either case one entry is added and none lost |
| BTreeRepeats.InsertAddsOneEntry | src/index/index.c:79-128 | on every well-shaped tree, ordered or not, an insertion adds one entry with the given key and keeps how often every other key occurs |
| BTreeRepeats.RunRefinesExactly | src/index/index.c:145-193 | a run of insertions and deletions refines the same run on a finite map, after every step and with the answers to all searches, if and only if it inserts absent keys only |
| BTreeRepeats.EveryRunBalanced | src/index/index.c:36-71 | after every run, whatever the keys: no over-full node, all leaves at one depth, logarithmic height, right node counter |
| BTreeRepeats.EveryRunSteady | src/index/index.c:110-118 | after every run, whatever the keys, the separators of no node decrease |
| BTreeRepeats.RepeatedKeysHideKey | src/index/index.c:110-118 | inserting 2, 2, 2, 3, 1, 1 leaves a tree that holds 3 and in which a search for 3 comes to a leaf without it |
| BTreeMap.SearchCorrect | src/index/index.c:165-176 | in an ordered tree the leaf that the descent comes to holds the key exactly when the map does, with the same location |
| BTreeMap.DeleteCorrect | src/index/index.c:178-193 | deletion finds the key exactly when the map binds it, removes that binding only, and keeps order, height and leaf chain |
| BTreeMap.HeightAndSize | src/index/index.c:56-71 | the bounds on height and node count for every tree that owes no more than its insertions |
| BTreeMap.KeysAlongChain | src/index/index.c:223-236 | the keys of the leaves, left to right, are the strictly increasing key set of the map |
| BTree.PromotedInPlace | src/index/index.c:110-118 | at every node on the way up from the insertion of an absent key, the slot found by comparing the promoted key is the slot descended through |
| BTree.PromotedSlotExactly | src/index/index.c:110-118 | in every node, equal separators included, it is that slot if and only if the promoted key is not below the separator to its left and is below the one to its right |
| Checksum.Compute | src/storage/page/page.c:25-31 | the loop computes the function that the lemmas are about |
| Checksum.SumIsXorOfShifted | src/storage/page/page.c:25-31 | the checksum is the xor of all bytes, each shifted by its distance from the end, modulo 2^32 |
| Checksum.OneByteChange | src/storage/page/page.c:25-31 | overwriting one byte goes unnoticed if and only if its difference is shifted out |
| Checksum.LastBytesDetected | src/storage/page/page.c:25-31 | every change of one of the last 25 covered bytes changes the checksum |
| Checksum.OnlyTailMatters | src/storage/page/page.c:25-31 | bytes before the last 32 do not influence the checksum at all |
| Checksum.TailBitDetected | src/storage/page/page.c:25-31 | each of the last 32 bytes does: flipping its lowest bit is noticed |
| Page.Alloc | src/storage/page/page.c:41-59 | the bytes of a new page stand for no rows, under the given page number |
| Page.Insert | src/storage/page/page.c:65-85 | for every length that the parameter can have: a row that fits with header, directory and all rows is appended as one live row by the byte writes; any other is refused without a change, or let in by the wrapped test and stored outside the page |
| Page.Read | src/storage/page/page.c:87-105 | the row of a live slot, or the error that the code gives for a dead or missing slot or a short buffer |
| Page.Delete | src/storage/page/page.c:107-119 | one live row becomes dead, every other cell and the page number stay |
| Page.Compact | src/storage/page/page.c:121-145 | exactly the live rows remain, in order, with the page number |
| Page.SpaceAccount | src/storage/page/page.c:33-39 | free space starts behind the directory and ends where all rows, dead ones included, begin, and the two never cross |
| Page.RowsDisjoint | src/storage/page/page.c:65-85 | rows of different slots never overlap and never reach into the directory |
| Page.LiveRenumbered | src/storage/page/page.c:121-145 | compaction renumbers live rows in an order-preserving way and keeps their bytes |
| Page.OnlyLive | src/storage/page/page.c:121-145 | every row after compaction was a live row before |
| Page.SpaceReclaimed | src/storage/page/page.c:121-145 | compaction frees exactly the slots and bytes of dead rows |
| Page.CompactIdempotent | src/storage/page/page.c:121-145 | compacting twice leaves counters, slots and rows as after the first time |
| Page.FitsAfterCompact | src/storage/page/page.c:65-85 | after compaction a row fits if and only if fewer than 128 rows are live and it fits the space with the dead space added |
| Page.SpaceTestExactly | src/storage/page/page.c:65-69 | on every page the space test lets in just the rows that fit if and only if the length is below 65530, or the directory is full, or less than length - 65530 bytes are free |
| Page.BlankPageTakesTooMuch | src/storage/page/page.c:65-69 | a blank page lets in 65535 bytes |
| Disk.Seal | src/storage/page/page.c:147-163 | after the checksum is written the page verifies and says the same |
| Disk.TableFile.Write | src/storage/page/page.c:147-163 | a write stores the page at its number and touches no other; a failed one may have torn that page only |
| Disk.TableFile.Read | src/storage/page/page.c:165-186 | a page is returned only if its checksum holds, and always is if the device works |
| Disk.TamperDetected | src/storage/page/page.c:165-186 | a page with one of its last 25 bytes changed is rejected |
| Disk.HeadUnguarded | src/storage/page/page.c:165-186 | a change of any other byte before the last 32 is accepted, slot directory and most rows included |
| PoolState.AccessKeeps | src/storage/buffer/buffer.c:91-120 | a hit changes no page and loses none |
| PoolState.WriteKeeps | src/storage/buffer/buffer.c:126-144 | a page write, successful or torn, changes no page of pool and file together |
| PoolState.EvictKeeps | src/storage/buffer/buffer.c:40-66 | dropping a clean frame changes no page |
| PoolState.LoadKeeps | src/storage/buffer/buffer.c:91-120 | reading a page into a free frame changes no page |
| PoolState.CreateKeeps | src/storage/buffer/buffer.c:145-162 | a new page adds itself and changes no other |
| PoolState.EditKeeps | src/storage/buffer/buffer.c:122-124 | an edit of a frame marked dirty changes its own page only |
| PoolState.CloseThenOpen | src/storage/buffer/buffer.c:81-89 | a pool whose frames are all clean leaves a file that opens to the same pages |
| Lru.RecencyFacts | src/storage/buffer/buffer.c:27-38 | the reference list holds every accessed page once, ordered by last access |
| Lru.VictimIsLast | src/storage/buffer/buffer.c:27-38 | the frame of least rank holds the seventh most recently accessed page |
| Lru.HitExact | src/storage/buffer/buffer.c:91-120 | after a hit the frames again hold exactly the most recently accessed pages |
| Lru.MissExact | src/storage/buffer/buffer.c:91-120 | after a miss that fills a free frame or replaces the oldest they do too |
| Lru.RanksDistinct | src/storage/buffer/buffer.c:91-120 | ranks of different frames differ and are below the clock |
| Buffer.BufferPool.Find | src/storage/buffer/buffer.c:10-17 | the first frame that holds the page |
| Buffer.BufferPool.FindFree | src/storage/buffer/buffer.c:19-25 | the first free frame |
| Buffer.BufferPool.FindLru | src/storage/buffer/buffer.c:27-38 | a frame of least rank |
| Buffer.BufferPool.Evict | src/storage/buffer/buffer.c:40-66 | whether or not the write succeeds no page changes; only a success frees the frame |
| Buffer.BufferPool.Pin | src/storage/buffer/buffer.c:91-120 | the page is in the returned frame and no page has changed, whatever reads and writes came out; the resident pages stay the most recent ones |
| Buffer.BufferPool.NewPage | src/storage/buffer/buffer.c:145-162 | an empty page under the new number is added, all others are unchanged |
| Buffer.BufferPool.MarkDirty | src/storage/buffer/buffer.c:122-124 | the pool is in order again after its user's edit |
| Buffer.BufferPool.KillUnmarked | src/storage/Table/table.c:592-603 | when a new version does not fit, the old one is dead in the frame's bytes and the frame keeps the mark it had |
| Buffer.BufferPool.EvictEdited | src/storage/buffer/buffer.c:40-66 | evicting that frame keeps the deletion if the frame was marked before, and otherwise gives back the pages as they were before the UPDATE |
| Buffer.BufferPool.FlushAll | src/storage/buffer/buffer.c:126-144 | no page changes, and unless a write failed every frame is clean |
| Buffer.BufferPool.Destroy | src/storage/buffer/buffer.c:81-89 | if the flush succeeded the file says what the pool said |
| Buffer.AccessAll | src/storage/buffer/buffer.c:68-162 | over every sequence of pins and new pages from `buf_init` on the resident pages are exactly the seven most recently accessed different ones |
| Heap.FirstFitIsFirst | src/storage/Table/table.c:373-421 | the page chosen for a row has room and no earlier page has |
| Heap.AgreementIsUnique | src/storage/Table/table.c:222-275 | live rows never share a key, and the rows determine the index |
| Heap.ScanExactly | src/storage/Table/table.c:453-491 | the full scan yields every matching live row once, in page and slot order, and nothing else |
| Heap.LookupIsScan | src/storage/Table/table.c:423-494 | an equality on the index column has the same answer from the index and from the full scan |
| Heap.DeleteRemovesMatches | src/storage/Table/table.c:496-540 | a row is live after DELETE if and only if it was live and did not match, and stays where it was |
| Heap.UpdateIsExact | src/storage/Table/table.c:542-619 | UPDATE of a page kills the matching rows and appends one new version of each if and only if all new versions fit behind what is on the page |
| Heap.UpdateOncePerRow | src/storage/Table/table.c:547-616 | in every UPDATE, fitting or not, a row that matched dies and gets at most one new version, and exactly one if that fits at its turn, even if it matches again; other rows are untouched |
| Heap.UpdateAddsNothingElse | src/storage/Table/table.c:547-616 | every live row afterwards is an untouched one or the new version of exactly one old row |
| Heap.UpdateStepAgrees | src/storage/Table/table.c:590-612 | one rewriting step keeps index and rows in agreement if and only if the new version fits |
| Heap.UpdateLosesRow | src/storage/Table/table.c:592-603 | in a page with 127 dead slots before its only live row every UPDATE of that row leaves no live row, and an index that agreed before and no longer does |
| Heap.SameKeysFree | src/storage/Table/table.c:542-619 | an UPDATE of another column never meets a used key |
| TablePages.PutRow | src/storage/Table/table.c:373-421 | the row goes to the first page with room, or to a new page, and no other row changes |
| TablePages.FlushRows | src/storage/Table/table.c:286-303 | after `table_flush` the file holds the rows, although no frame is marked clean |
| TablePages.CloseRows | src/storage/Table/table.c:277-283 | after closing the file holds the rows |
| TableLayer.Table.InsertRaw | src/storage/Table/table.c:373-421 | the rows gain one row at its place; a fresh key keeps index and rows in agreement |
| TableLayer.Table.Delete | src/storage/Table/table.c:496-540 | the rows lose the matching ones, their number is returned, index and rows still agree |
| TableLayer.Table.Update | src/storage/Table/table.c:542-619 | when all new versions fit, the rows are those of the specification, and index and rows still agree if no new key meets a used one |
| TableLayer.Table.LookupScan | src/storage/Table/table.c:436-452 | the index branch returns the row under the key, if there is one |
| TableLayer.Table.FullScan | src/storage/Table/table.c:453-491 | the matching live rows in page and slot order |
| TableLayer.Table.TableScan | src/storage/Table/table.c:423-494 | whichever branch is taken, the answer is that of the full scan |
| TableLayer.Table.Rebuild | src/storage/Table/table.c:246-272 | the rebuilt index agrees with the rows if live rows have different keys |
| TableLayer.OpenTable | src/storage/Table/table.c:222-275 | an opened table has the rows of its file and an index that agrees with them |
| TableLayer.Table.Flush | src/storage/Table/table.c:286-303 | the file then holds the rows of the table, rows and index are unchanged |
| TableLayer.Table.Close | src/storage/Table/table.c:277-283 | the file is left with the rows of the table |
| TableLayer.Reopen | src/storage/Table/table.c:222-283 | closing and opening again gives the same rows at the same locations and an index that is the same map |
| TableRuns.ApplyAll | src/storage/Table/table.c:373-619 | along every run of inserts, deletes and updates that fit, the rows are those of the changes alone, and index and rows agree after it if every change that enters a key enters an unused one |
| TableRuns.UpdatesUntilFull | src/storage/Table/table.c:547-616 | a row that is alone in its page and keeps its length can be updated n times with every version fitting if and only if n + 1 versions fit the directory and the page |
| Wal.DecodeEncode | src/WAL/wal.c:23-54 | a record that was written reads back, checksum included |
| Wal.CrashLeavesPrefix | src/WAL/wal.c:33-54 | a log cut at any byte reads back as exactly the whole records before the cut |
| Wal.NameKept | src/WAL/wal.c:118-145 | a table name of at most 63 characters survives the log, a longer one as its first 63 |
| Wal.PayloadKept | src/WAL/wal.c:118-145 | a payload of at most 256 bytes survives the log |
| Wal.ShortPayloadUnchecked | src/WAL/wal.c:13-21 | a record whose last 32 payload bytes are zero has checksum 0, whatever else it says |
| Wal.DamageDetected | src/WAL/wal.c:33-54 | a record with one of its last 25 covered bytes changed is rejected |
| Wal.CountersAbove | src/WAL/wal.c:70-95 | the counters end up above every id of the log if and only if no id is the largest of its type |
| Wal.CountersExactly | src/WAL/wal.c:70-95 | then the counters are one above the largest id, and 1 on an empty log |
| Wal.CountersWrap | src/WAL/wal.c:84-87 | a log of one BEGIN with the largest LSN, or the largest transaction id, leaves that counter at 0 |
| Wal.Log.Open | src/WAL/wal.c:70-95 | the counters are those of the records that can be read |
| Wal.Log.Begin | src/WAL/wal.c:104-116 | a complete write adds one BEGIN record with the next ids behind the earlier ones; a short one is reported, loses no earlier record and leaves nothing of its own that can be read; the counters move on in both cases |
| Wal.Log.Append | src/WAL/wal.c:118-145 | the same for one data record |
| Wal.Log.AppendCommit | src/WAL/wal.c:147-164 | the same for one COMMIT record |
| WalProtocol.RunKeepsInv | src/WAL/wal.c:104-164 | after every sequence of steps: LSNs increase, every BEGIN has a new id, no transaction writes after its COMMIT, acknowledged transactions have a synced COMMIT |
| WalProtocol.FreshIds | src/WAL/wal.c:104-164 | LSNs strictly increase and no record before a BEGIN carries its id |
| WalProtocol.CrashSafety | src/WAL/wal.c:104-164 | after every run and every crash the records left of the log hold all inserts of each transaction whose COMMIT they hold, and the COMMIT of every acknowledged one; this is about everything that can be read, not about the part that `wal_recover` takes into account |
| WalProtocol.CrashSafetyOnBytes | src/WAL/wal.c:33-54 | the same for the readable records of the log file cut at any byte behind what was synced |
| Insertions.CountersFollow | src/WAL/wal.c:104-116 | along every run the transaction numbers in the code count the transactions begun, and each write goes to the one that its statement belongs to |
| Insertions.InsertsFollow | src/WAL/wal.c:118-145 | the INSERT records of a run stand one for one and in order for what its statements insert: transaction, table name and bytes |
| Session.Session.HandleBegin | src/dispatcher/dispatcher.c:202-207 | the statement is the BEGIN step of the protocol and its transaction is the current one |
| Session.RowTextFields | src/dispatcher/dispatcher.c:150 | the stored text is the two values joined, and splits into them in their order if and only if neither is empty or holds a bar |
| Session.Session.HandleInsert | src/dispatcher/dispatcher.c:142-168 | inside a transaction, outside one and on each error path the log sees exactly the listed protocol steps; unless the text is too long they insert it once, into the named table, under the user's transaction or one of its own that is acknowledged on success; what is inserted fits the data field of a record |
| Session.Session.HandleCommit | src/dispatcher/dispatcher.c:209-214 | the statement is the COMMIT and sync steps; once it returns the transaction is acknowledged |
| Session.Session.LogRow | src/storage/Table/table.c:164-171 | a logged row is one private transaction, acknowledged on return, that inserts the row if it is logged as an insert |
| Recovery.ReadAll | src/WAL/wal.c:174-180 | the array ends up with the first 1024 records that can be read |
| Recovery.CollectCommits | src/WAL/wal.c:186-192 | the array ends up with the ids of all COMMIT records, unless there are more than its 256 places |
| Recovery.TableNamed | src/WAL/wal.c:56-61 | a logged record is for the table that was named when it was logged |
| Recovery.RedoInsert | src/WAL/wal.c:56-68 | the named table gains the payload as a row, other tables and missing tables are left alone |
| Recovery.RedoLoop | src/WAL/wal.c:197-221 | the committed inserts are replayed in log order, and redone plus skipped is the number of data records |
| Recovery.CountsAre | src/WAL/wal.c:197-221 | the two counts are the numbers of records that are neither BEGIN nor COMMIT, and of those of committed transactions |
| Recovery.Recover | src/WAL/wal.c:168-231 | with at most 256 COMMITs among the first 1024 records, the tables are those after replaying the committed inserts among these records, and the log ends empty unless it held no record; with more, the code leaves its array before any table is touched |
| Recovery.RedoPerTable | src/WAL/wal.c:56-68 | each table gets exactly the rows of its own records, in log order |
| Recovery.ReplayKeepsRows | src/WAL/wal.c:56-68 | rows that were live stay live, where they were |
| Recovery.ReplayAddsRow | src/WAL/wal.c:56-68 | each replayed record becomes a new live row with its bytes, at a place of its own |
| Recovery.ReplayAddsNothingElse | src/WAL/wal.c:56-68 | no other row appears |
| CrashRecovery.CrashThenRecover | src/WAL/wal.c:168-231 | for every run, cut and transaction with inserts: all of them are replayed if and only if its COMMIT is among the first 1024 whole records left and these hold at most 256 COMMITs; otherwise none is |
| CrashRecovery.CrashRecoversRows | src/WAL/wal.c:168-231 | after every run and crash that leave at most 256 COMMITs among the first 1024 records, each table has its rows from before, unmoved, plus one new row for each insert of each transaction seen committed, at different places, and nothing else |
| CrashRecovery.InsertsComeBack | src/WAL/wal.c:168-231 | within the limits, each insertion that a statement made in a transaction seen committed is back after the restart as a new live row with the inserted bytes in the table of that name, each another row |
| CrashRecovery.NothingElseComesBack | src/WAL/wal.c:168-231 | and every new row is one that such a statement inserted |
| CrashRecovery.ValuesComeBack | src/dispatcher/dispatcher.c:142-168 | an INSERT of two values, neither empty nor with a bar, is back as a row that splits into these values in their order |
| CrashRecovery.Restart | src/WAL/wal.c:70-95 | `wal_open` followed by `wal_recover` brings the table files to that state and the log back to its start, or reports that the commit array is too small |
| CrashRecovery.SessionsReplayable | src/WAL/wal.c:56-68 | in every run of the dispatcher's statements what recovery replays fits the data field of a record |
| CrashRecovery.LateCommitForgotten | src/WAL/wal.c:174-180 | of a transaction without a COMMIT among the first 1024 records nothing is replayed |
| CrashRecovery.LongTransaction | src/WAL/wal.c:174-180 | one acknowledged and synced transaction of n inserts is replayed in full if n is at most 1022, and otherwise nothing of it is |
| CrashRecovery.SingleInserts | src/WAL/wal.c:186-192 | n acknowledged INSERT statements outside a transaction are all replayed if n is at most 256, and otherwise a restart leaves the commit array |
| Lexer.Tokenize | src/parser/lexer/lexer.c:52-111 | the loops compute the specified token list, cut at 128 tokens and at the first NUL |
| Lexer.ClassifyWord | src/parser/lexer/lexer.c:30-42 | the loop computes the classification that the lemmas are about |
| Spelling.ClassifyExactly | src/parser/lexer/lexer.c:30-42 | a word is a keyword if and only if it is that keyword's word letter by letter, capital or small, and a name if and only if it is none |
| Spelling.CaseDoesNotMatter | src/parser/lexer/lexer.c:30-42 | two spellings of a word are classified alike |
| Spelling.CharacterClasses | src/parser/lexer/lexer.c:88-100 | the letters, digits and word characters, one by one |
| Spelling.LexWritten | src/parser/lexer/lexer.c:52-111 | tokens written in any way, with anything in the gaps that is no part of a token, and no gap where they do not run into each other, are read back; a NUL ends the text |
| Spelling.QuotedExactly | src/parser/lexer/lexer.c:76-86 | a quoted value comes back if and only if it has no quote, no NUL and fewer than 256 characters |
| Spelling.LongTokensCut | src/parser/lexer/lexer.c:76-106 | longer values, numbers and words are cut after 255 characters |
| Parser.ValueLoopEnds | src/parser/parser.c:116-127 | the value loop of INSERT ends if and only if a closing token comes after nothing but values and commas |
| Parser.ColumnLoopEnds | src/parser/parser.c:225-235 | the column loop of CREATE TABLE ends if and only if a closing token comes after nothing but words and commas |
| SqlTexts.InsertHangs | src/parser/parser.c:116-127 | on the text `INSERT INTO t VALUES ( SELECT` it does not |
| SqlTexts.CreateHangs | src/parser/parser.c:225-235 | on the text `CREATE TABLE t ( SELECT` that one does not |
| ParserCode.TokenParser.ParseSelect | src/parser/parser.c:58-90 | position, fields and success are those of the specification |
| ParserCode.TokenParser.ParseInsert | src/parser/parser.c:92-130 | likewise, on lists on which its loop ends |
| ParserCode.TokenParser.ParseUpdate | src/parser/parser.c:132-165 | likewise |
| ParserCode.TokenParser.ParseDelete | src/parser/parser.c:167-184 | likewise |
| ParserCode.TokenParser.ParseCreate | src/parser/parser.c:186-239 | likewise, on lists on which its loop ends |
| ParserCode.Parse | src/parser/parser.c:258-327 | tokeniser and parser together compute the specified intent |
| SqlRoundTrip.ValueLoopTakes | src/parser/parser.c:116-127 | however numbers, words, quoted values and commas are mixed before a closing token, the values are taken in order, the first 32 of them |
| SqlRoundTrip.ParseBack | src/parser/parser.c:258-327 | any tokens that say a statement, its values being numbers, words or quoted, are read as that statement, with names cut to 63 characters, values to 255 and lists to 32 |
| SqlRoundTrip.RoundTrip | src/parser/parser.c:258-327 | every way of writing a statement down gives it back: keywords in any mix of cases, values of every kind, a missing sign before a value, any gaps, a semicolon and more behind it, up to the 128th token |
| SqlTexts.DeleteReads | src/parser/parser.c:167-184 | `delete From users WHERE id=2;` is read as the deletion of that row |
| SqlTexts.AcceptedExactly | src/parser/parser.c:258-327 | a token list on which the loops end is accepted if and only if it starts with the kinds of one of the statements |
| SqlTexts.WhereExactly | src/parser/parser.c:38-56 | a WHERE clause restricts the statement if and only if a column and a value follow, with or without a sign |
| SqlTexts.UpdateExactly | src/parser/parser.c:132-165 | an UPDATE sets the value that follows its column, with or without a sign, and the empty one if none does |
| RowCodec.SerialiseRow | src/storage/Table/table.c:99-110 | the buffer holds the joined fields and a terminator |
| RowCodec.SplitJoinExactly | src/storage/Table/table.c:99-110 | splitting joined fields gives the fields if and only if none is empty or holds a bar |
| RowCodec.SerialisedSplits | src/storage/Table/table.c:99-110 | so does splitting what `serialise_row` wrote |
| RowCodec.RewriteRow | src/storage/Table/table.c:574-590 | for every buffer, stale bytes included, what is written splits into as many fields as what was read, with the value in the place of the given one; a row without that field keeps its fields |
| RowCodec.RewriteFields | src/storage/Table/table.c:581-585 | the same of the text alone, for every column number |
| RowCodec.SplitOverrun | src/storage/Table/table.c:574-581 | what the splitting finds in any row that runs on into other bytes: the last field grows, or new ones follow |
| RowCodec.RewriteReplacesField | src/storage/Table/table.c:574-590 | for every stored row that has the field: the new row is the old one's fields with exactly that one replaced if and only if the row carries a terminator or the bytes behind it in the buffer are benign |
| RowCodec.StaleBytesLeakIn | src/storage/Table/table.c:574-590 | the unterminated row with fields 2 and bo, read into a buffer that goes on with ice from a longer row, is rewritten to the fields 3 and boice |

## Findings
What the code does not keep, each with the member that has the input and the one that has the condition:

- A second insertion of a key is accepted and breaks the order of the tree; after 2, 2, 2, 3, 1, 1 key 3 can no longer be found (`BTreeRepeats.RepeatedKeysHideKey`). The order survives exactly the insertions of absent keys (`BTreeRepeats.InsertExactly`, `BTreeRepeats.RunRefinesExactly`).
- Recovery keeps the first 1024 records. An acknowledged transaction of 1023 inserts is forgotten altogether, and the log is emptied (`CrashRecovery.LongTransaction`, condition in `CrashRecovery.CrashThenRecover`).
- Recovery has room for 256 commits and does not check it. After 257 acknowledged single INSERT statements a restart stores outside its array (`CrashRecovery.SingleInserts`, condition in `CrashRecovery.CrashThenRecover`, in the code's form in `Recovery.Recover`).
- The dispatcher stores rows without a terminator, and UPDATE splits its row buffer up to the next NUL, so bytes of an earlier, longer row get into the new version (`RowCodec.StaleBytesLeakIn`, condition in `RowCodec.RewriteReplacesField`).
- An UPDATE whose new version does not fit has already deleted the old one: the row is gone and the index still points at it (`Heap.UpdateLosesRow`, condition in `Heap.UpdateStepAgrees`). A row comes to that by being updated often enough, since no version is ever given back (`TableRuns.UpdatesUntilFull`). The frame is not marked, so if it was clean the row comes back when the frame is evicted (`Buffer.BufferPool.KillUnmarked`, condition in `Buffer.BufferPool.EvictEdited`).
- The space test of `page_insert` adds in 16 bits. A blank page lets in 65535 bytes (`Page.BlankPageTakesTooMuch`, condition in `Page.SpaceTestExactly`).
- The value loop of INSERT and the column loop of CREATE TABLE do not end on a token that they do not consume, such as a keyword (`SqlTexts.InsertHangs`, `SqlTexts.CreateHangs`, conditions in `Parser.ValueLoopEnds` and `Parser.ColumnLoopEnds`).
- The checksum sees the last 32 bytes only. Every byte of a page before them can change unnoticed (`Disk.HeadUnguarded`), and a log record with a short payload is not guarded at all (`Wal.ShortPayloadUnchecked`); what is noticed is in `Checksum.OneByteChange`.
- A WHERE clause that lacks its column or value is passed over, and the statement concerns every row (`SqlTexts.WhereExactly`).
- A record whose id is the largest of its type makes a counter of `wal_open` wrap to 0 (`Wal.CountersWrap`, condition in `Wal.CountersAbove`).
- A value with a quote cannot be written in a statement, since there is no escape, and a value that is empty or holds a bar does not come back from its row (`Spelling.QuotedExactly`, `RowCodec.SplitJoinExactly`).

## Left out
- Buffer.BufferPool.NewPage: a page number that is already in a frame; the code would put it into a second frame, and the table layer asks for one only after a row that fits no page.
- TablePages.PutRow: rows of more than 4050 bytes, which fit no page; the code then returns an error and leaves a blank page in a frame. The dispatcher's rows have at most 255.
- TableLayer.Table.InsertRaw: the same rows.
- TableLayer.Table.Update: updates with a new version that does not fit its page; there a page is changed behind an unmarked frame, and `Heap.UpdateOncePerRow`, `Heap.UpdateStepAgrees`, `Buffer.BufferPool.KillUnmarked` and `Buffer.BufferPool.EvictEdited` say what happens. The new version is a function `f` of the row; where stale buffer bytes get in it is not one, and `RowCodec.RewriteReplacesField` says when that is.
- TableLayer.Table.TableScan: the reading of numbers and text in `get_col_value`, `row_matches_where` and `atoi`; key and match are abstract functions of the row, and that a match on the index column is equality of keys is an assumption of the index branch.
- TableLayer.OpenTable: files with damaged pages and devices that fail, at the level of a table; the pool itself is modelled with both.
- TablePages.FlushRows: devices that fail, likewise.
- TablePages.CloseRows: devices that fail, likewise; `Buffer.BufferPool.Destroy` has them.
- Recovery.RedoInsert: payloads of more than 256 bytes, for which the data field of a record has no room; `CrashRecovery.SessionsReplayable` says that the dispatcher logs none.
- Recovery.Recover: a log whose first record is torn, which the code leaves as it is; a crash during recovery; an insert that is in the table already, which replay does not look for; and what happens after the code has left its commit array.
- Session.Session.HandleInsert: write failures before the crash, whose results the dispatcher ignores (`Wal.Log.Append` has them), and counters that wrap around between two truncations of the log.
- Wal.Log.Append: what later appends behind a torn record read as, since their bytes are no longer aligned.
- ParserCode.TokenParser.ParseInsert: lists on which the value loop does not end.
- ParserCode.TokenParser.ParseCreate: lists on which the column loop does not end.
- ParserCode.Parse: texts on which one of them does not end.
- RowCodec.SerialiseRow: rows that overflow the 4096-byte buffer.
- RowCodec.RewriteRow: new rows that overflow it.
- RowCodec.RewriteReplacesField: rows that have fewer fields than the column's number; `RowCodec.RewriteFields` has them.
- `table_insert`, which nothing in the program calls and which differs from the raw insert by serialising and logging the row itself, `table_create`, `table_drop`, and the catalog, schema and database files.
- src/io/aio.c: asynchronous I/O over an unseen library.
- src/concurrency/rwlock.c: the locks; every operation is one step of one thread.
- main.c, src/monitor/monitor.c, src/reph/reph.c and every print function: prompt, display and polling.
- `pin_count` and `page_lsn`, which nothing in the code acts on; fsync of the table file; failing allocations.
