# Redis 2.8.19 in Dafny

A model of the data structures, codecs and protocols of the Redis 2.8.19 server, with proofs about all
their inputs and all their runs. The C code works by changing things step by step, and so does the
model: objects whose functions update fields are classes over arrays, sequences and maps, loops are
loops, and every method is proved against a specification function or an outright property. What
callers rely on is then proved about these specifications.

`dafny verify dfyconfig.toml` checks everything. Most proofs open with `hide`, which keeps definitions
that a step does not need away from the solver.

| files | component |
|---|---|
| `dict_spec`, `dict_refinement`, `dict` | the incremental hash table: two chained tables during a migration, refining a map |
| `word`, `dict_scan`, `dict_scan_runs`, `dict_scan_gap` | the reversed-cursor scan and its coverage guarantee, for single calls and over whole runs |
| `dict_iteration` | safe iterators over whole runs |
| `resp`, `request_parser`, `query_buffer` | the request protocol: printing, resumable parsing, independence of how bytes are chunked |
| `aof_log`, `aof_rewrite`, `aof`, `aof_load` | the append-only file: what a log means, the rewriting child, the server's two streams, recovery after a crash |
| `lzf_format`, `lzf_plan`, `lzf` | the LZF compressor and decompressor |
| `hll_dense`, `hll_sparse`, `hll` | HyperLogLog registers in both encodings |
| `pqsort` | the partial quicksort behind SORT with LIMIT |
| `watch_history`, `watch_spec`, `multi` | WATCH, MULTI, EXEC over many clients |
| `reply_stream` | output buffer, reply list, deferred lengths, short writes |
| `intset` | the set of integers in a byte array that is widened in place |
| `bitops`, `bitop` | counting and finding bits, BITOP |
| `rand` | the 48-bit generator on 16-bit limbs |
| `bio` | the background job queue as interleaved steps |

## Where the code does not keep a promise

Three properties that one would expect hold only under a condition. The condition is proved exact, or
the failing run is exhibited.

* A scan with keys that stay throughout emits all of them only if no call happens in the middle of a
  shrink with cursor bits above the smaller mask, unless these bits are a run of ones starting right
  there. `DictScan.SafeCursorExact` has both directions for one call, `DictScanGap.SafeScanExact` for
  whole scans, `DictScanGap.ScanCanMissAKey` a scan that loses a key. A scan during growth needs no
  condition, `DictScanRuns.GrowingScanEmits`. With shrinks `DictScanRuns.ScanInRunEmits` asks that no
  call in the middle of a migration finds a table smaller than the smaller one of the call before: a
  shrink completed in between is fine, a shrink followed by a growth still under way at the next call
  may not be.
* The size guards of the request parser can answer a valid command with a protocol error:
  `RequestParser.CommandTracks` says exactly when, `RequestParser.GuardCanFire` gives a command, and
  `RequestParser.SizedIsFine` shows that the read sizes of the event loop exclude it.
* When `fstat` fails right after a rewritten file has been put in place, the server keeps the size of
  the old file and may later truncate the new one to it. `Aof.StepKeepsLogExactly` shows that this is
  the only step after which a flush can change the log, `Aof.StaleSizeLosesData` loses a key that way.

The reply stream has a smaller gap of this kind: when the write handler cannot be installed, the one
addition that found this out is dropped and later ones are not. The outcome is therefore a parameter
of every addition in `reply_stream`, and the stream promised is that of the additions accepted.

## Model

| member | source | states |
|---|---|---|
| `DictRefinement.NextPowerIsLeast` | `redis-2.8.19/src/dict.c:838-848` | the capacity chosen for a request is a power of two, is at least the request, and half of it would not be enough (or it is the initial size) |
| `Dict.Dict.constructor` | `redis-2.8.19/src/dict.c:178-188` | a new dictionary satisfies the invariant for the empty map |
| `Dict.Dict.NextPowerOf` | `redis-2.8.19/src/dict.c:838-848` | the doubling loop computes the capacity of the specification |
| `Dict.Dict.ExpandTo` | `redis-2.8.19/src/dict.c:204-231` | allocation of the first table, or of the second one with migration starting at bucket 0, is refused while a migration runs or when the request is too small; the map is unchanged |
| `DictRefinement.ExpandKeepsMap` | `redis-2.8.19/src/dict.c:204-231` | starting a migration, or allocating the first table, keeps the invariant for the same map |
| `Dict.Dict.ResizeToMinimal` | `redis-2.8.19/src/dict.c:192-201` | shrinking keeps the invariant and the map; it is refused during a migration, while resizing is off, and with more nodes than an `int` counts |
| `DictRefinement.ResizeKeepsMap` | `redis-2.8.19/src/dict.c:192-201` | the same on the specification, in every well-formed state |
| `DictRefinement.ShrinkRule` | `redis-2.8.19/src/dict.c:192-231` | a resize that succeeds migrates to the least power of two, from the initial size on, that holds all nodes |
| `Dict.Dict.MoveBucket` | `redis-2.8.19/src/dict.c:256-270` | relinking a chain node by node ends with the chain of the specification at the head of each target bucket |
| `DictRefinement.MoveChainLookup` | `redis-2.8.19/src/dict.c:256-270` | moving a chain adds exactly its nodes to the target table: every lookup there changes accordingly and no other |
| `DictRefinement.MigrateLookup` | `redis-2.8.19/src/dict.c:248-274` | moving one bucket from the old table to the new one changes no lookup of the whole dictionary |
| `Dict.Dict.RehashIteration` | `redis-2.8.19/src/dict.c:240-274` | one iteration skips empty buckets without leaving the table, migrates one chain, or swaps the tables when the old one is used up |
| `DictRefinement.RehashOnceKeepsMap` | `redis-2.8.19/src/dict.c:240-274` | an iteration keeps the whole invariant (unique keys across both tables, right buckets, empty buckets below rehashidx, used counters) and the map |
| `DictRefinement.RehashOnceProgress` | `redis-2.8.19/src/dict.c:237-274` | an iteration that does not end the migration advances rehashidx by at least one bucket |
| `Dict.Dict.RehashN` | `redis-2.8.19/src/dict.c:237-274` | any number of iterations leaves the map unchanged and, unless it ends the migration, advances it by as many buckets at least; more iterations than the old table has buckets always end it (as many may leave it to the next call) |
| `Dict.Dict.Step` | `redis-2.8.19/src/dict.c:303-305` | the step done by every operation is suspended while an iterator is active, and keeps the map |
| `DictRefinement.RehashStepKeepsMap` | `redis-2.8.19/src/dict.c:303-305` | the same on the specification |
| `DictRefinement.RehashStepProgress` | `redis-2.8.19/src/dict.c:296-305` | while no iterator is active the step of every operation advances a migration by at least one bucket, or ends it |
| `Dict.Dict.WalkChain` | `redis-2.8.19/src/dict.c:480-493` | a walk along a chain stops at the first node with the key, or finds that there is none |
| `Dict.Dict.Locate` | `redis-2.8.19/src/dict.c:475-494` | the search over one or two tables finds the position of the node of the key, in the first table that has it, exactly when the map has the key |
| `Dict.Dict.FindEntry` | `redis-2.8.19/src/dict.c:475-494` | find returns the node of the key with the value of the map, nothing exactly when the key is not in it, and does one migration step unless the table is empty |
| `Dict.Dict.GrowIfNeeded` | `redis-2.8.19/src/dict.c:816-835` | growth starts under the load-factor rule, also when resizing is only forced; the map is unchanged and a table exists afterwards |
| `DictRefinement.ExpandIfNeededKeepsMap` | `redis-2.8.19/src/dict.c:816-835` | on the specification: growth keeps the invariant and the map, and leaves a table allocated |
| `DictRefinement.GrowthRule` | `redis-2.8.19/src/dict.c:816-835` | outside a migration growth starts exactly when there are as many nodes as buckets and resizing is on, or six times as many; the new table is the least power of two for twice the nodes, at least twice the old one |
| `DictRefinement.AddKeepsLoad` | `redis-2.8.19/src/dict.c:332-355` | after an add a table that is not being migrated has at most as many nodes as buckets, or six times as many while resizing is off |
| `DictRefinement.PlaceIsInsert` | `redis-2.8.19/src/dict.c:338-353` | linking a node with a new key into the table that receives inserts extends the map by it |
| `Dict.Dict.Add` | `redis-2.8.19/src/dict.c:308-355` | an add succeeds exactly on a key not in the map and extends the map by it, whether or not the call migrates a bucket or starts an expansion |
| `Dict.Dict.InsertNode` | `redis-2.8.19/src/dict.c:856-878` | the key search before an insert refuses exactly the keys of the map, and the node goes to the table that receives inserts |
| `DictRefinement.AddIsMapInsert` | `redis-2.8.19/src/dict.c:332-355` | the same on the specification, with the invariant |
| `Dict.Dict.LinkNode` | `redis-2.8.19/src/dict.c:338-353` | the new node becomes the head of its bucket in the second table during a migration, else in the first |
| `Dict.Dict.Delete` | `redis-2.8.19/src/dict.c:395-430` | a delete succeeds exactly on a key of the map and removes that key only |
| `Dict.Dict.SearchAndUnlink` | `redis-2.8.19/src/dict.c:403-429` | the node is unlinked from the table that holds it and that table's counter is decremented |
| `DictRefinement.DeleteIsMapRemove` | `redis-2.8.19/src/dict.c:395-430` | the same on the specification, with the invariant |
| `Dict.Dict.Replace` | `redis-2.8.19/src/dict.c:361-380` | replace makes the map carry the value under the key and reports whether the key was new |
| `DictRefinement.AtFirst` | `redis-2.8.19/src/dict.c:404-426` | at the position where a chain walk stops, unlinking and overwriting do to every lookup what removal and update of the key do |
| `Word.SwapsReverse` | `redis-2.8.19/src/dict.c:648-656` | swapping halves, quarters and so on down to single bits puts bit 63-i of a word at place i |
| `Word.SwapsAreRev` | `redis-2.8.19/src/dict.c:648-656` | the number in the swapped word is the number in the word with its 64 bits reversed |
| `Word.RevLoop` | `redis-2.8.19/src/dict.c:648-656` | the loop with its shrinking shift and mask reverses the number in the word: the reversal that all statements about cursors use |
| `Word.RevRev` | `redis-2.8.19/src/dict.c:648-656` | reversing the bits of a word twice gives the word back |
| `Word.RevBit` | `redis-2.8.19/src/dict.c:648-656` | bit i of the reversal is bit w-1-i of the word |
| `Word.RevSplit` | `redis-2.8.19/src/dict.c:646-656` | the reversal of a word is the reversed low part, moved up, and the reversed rest |
| `Word.SlotIsLow` | `redis-2.8.19/src/dict.c:755-758` | masking with a power of two minus one keeps the low bits |
| `DictScan.AdvanceIsNextBlock` | `redis-2.8.19/src/dict.c:801-810` | setting the unmasked bits and incrementing the reversed cursor moves to the next block of hashes with equal low bits, in reversed order, and to 0 after the last |
| `DictScan.AdvanceIsIndex` | `redis-2.8.19/src/dict.c:801-810` | the cursor returned is an index of the smaller table |
| `DictScan.BumpIndex` | `redis-2.8.19/src/dict.c:794-798` | the increment of the expansion bits visits the next larger-table index with the same low bits, or clears them after the last one |
| `DictScan.ScanExpansions` | `redis-2.8.19/src/dict.c:784-798` | the do-while loop emits exactly the larger-table buckets from the cursor's own bits upward |
| `DictScan.DictScan` | `redis-2.8.19/src/dict.c:742-811` | a call emits the buckets and returns the cursor of the specification, with one table or with two; on an empty dictionary it emits nothing and returns 0 |
| `DictScan.SafeCursorExact` | `redis-2.8.19/src/dict.c:764-810` | in the middle of a migration a call emits every present key in the rest of its block, in every well-formed dictionary with tables of these sizes, if and only if the cursor bits above the smaller mask are zero or a run of ones from it |
| `DictScan.SafeIndicesExact` | `redis-2.8.19/src/dict.c:764-798` | the same on the indices of the larger table that the call visits |
| `DictScan.SafeCovers` | `redis-2.8.19/src/dict.c:764-810` | with such a cursor every hash in the rest of the block is visited |
| `DictScan.UnsafeMisses` | `redis-2.8.19/src/dict.c:764-810` | for any other cursor there is a hash in the rest of the block that the call skips |
| `DictScan.LoneIsNotEmitted` | `redis-2.8.19/src/dict.c:764-798` | a node at such a hash, alone in a table that has just begun to shrink, is not emitted |
| `DictScan.CallEmits` | `redis-2.8.19/src/dict.c:742-811` | a call with a safe cursor emits the node of every present key between the cursor and the end of its block, whichever table holds it |
| `DictScan.EmittedOnly` | `redis-2.8.19/src/dict.c:742-811` | a call emits stored nodes only, and only those whose hash lies in the block of the cursor |
| `DictScan.EmittedOnce` | `redis-2.8.19/src/dict.c:742-811` | a call emits no key twice, in one table or in two |
| `DictScan.ScanEmitsEveryKey` | `redis-2.8.19/src/dict.c:658-741` | the general form: over any scan from cursor 0 back to 0 whose calls have safe cursors, with any changes to the dictionary in between, a key present at every call is emitted at least once |
| `DictScan.IndexIsSafe` | `redis-2.8.19/src/dict.c:764-810` | a cursor below the size of the smaller table is safe |
| `DictScan.ScanEmitsUnlessShrinking` | `redis-2.8.19/src/dict.c:658-741` | without a condition on cursors: a key present at every call is emitted if no call in the middle of a migration finds a table smaller than the smaller one of the call before; growth at any stage and shrinks completed between calls are covered |
| `DictScanRuns.StepKeepsMap` | `redis-2.8.19/src/dict.c:192-494` | every operation between the calls of a scan keeps the invariant of the dictionary and acts on its map |
| `DictScanRuns.ScanInRunEmits` | `redis-2.8.19/src/dict.c:658-811` | over any run of calls, adds, finds, overwrites, deletes, migration steps and resizes from a well-formed dictionary, a scan from 0 back to 0 emits every key present all the time, unless a call falls into a migration with a table smaller than before |
| `DictScanRuns.SmallGrows` | `redis-2.8.19/src/dict.c:192-494` | no operation but the start of a shrink makes the smaller of the tables smaller |
| `DictScanRuns.GrowingScanEmits` | `redis-2.8.19/src/dict.c:658-811` | the guarantee of dictScan: if no shrink begins during the scan, every key present all the time is emitted, whatever stage of a growth the calls fall into |
| `DictScanRuns.CallsEnd` | `redis-2.8.19/src/dict.c:658-811` | after any run of operations, deletion of all keys included, calls with nothing in between bring the cursor to 0 within as many calls as the smaller table has buckets, and at once when the map is empty |
| `DictScan.UnchangedScanVisitsOnce` | `redis-2.8.19/src/dict.c:658-741` | with unchanged tables the cursor visits every bucket of the smaller table exactly once, in reversed order, before it is 0 again |
| `DictScan.ScanEnds` | `redis-2.8.19/src/dict.c:742-811` | a scan ends: from any cursor, repeating the call on an unchanged dictionary, empty or not and in the middle of a migration or not, returns cursor 0 within as many calls as the smaller table has buckets, and within one call when nothing is stored |
| `DictScan.UnchangedScanEmitsOnce` | `redis-2.8.19/src/dict.c:658-741` | a scan of an unchanged dictionary, whatever stage its migration is in, emits every node in exactly one of its calls |
| `DictScanGap.ScanCanMissAKey` | `redis-2.8.19/src/dict.c:725-810` | a complete scan of five calls with a key present throughout that never emits it, because a shrink starts between two calls |
| `DictScanGap.LostScan` | `redis-2.8.19/src/dict.c:658-811` | for every unsafe cursor there is a complete scan with a key present throughout that no call emits, and only the call at that cursor is to blame |
| `DictScanGap.SafeScanExact` | `redis-2.8.19/src/dict.c:658-811` | the condition is exact for whole scans: for all table sizes and every cursor a call can return, calls made there never make a scan miss a key if and only if the cursor is safe |
| `DictScanGap.ShrinkStarts` | `redis-2.8.19/src/dict.c:192-201` | the state between the calls of that scan is what resizing makes of the state before |
| `DictIteration.NextTakesOne` | `redis-2.8.19/src/dict.c:561-594` | next returns a node that lay ahead, which then is the only one no longer ahead; it returns nothing exactly when nothing lay ahead |
| `DictIteration.AddKeepsAhead` | `redis-2.8.19/src/dict.c:332-355` | while the iterator is active, an add (even one that starts an expansion) moves nothing across the iterator's position |
| `DictIteration.DeleteKeepsAhead` | `redis-2.8.19/src/dict.c:395-430` | deleting a node that is not ahead leaves what is ahead, the saved next node included |
| `DictIteration.SafeIterationReturnsAllOnce` | `redis-2.8.19/src/dict.c:541-605` | over any run of next, adds, finds and deletes of returned nodes from a well-formed dictionary, no node is returned twice, and at the end every node present from the start and still present has been returned |
| `DictIteration.SafeIterator.constructor` | `redis-2.8.19/src/dict.c:541-559` | a safe iterator starts before the first bucket of the first table |
| `DictIteration.SafeIterator.GetNext` | `redis-2.8.19/src/dict.c:561-594` | the object returns what the specification returns and suspends rehashing from its first call on |
| `DictIteration.SafeIterator.NextBucket` | `redis-2.8.19/src/dict.c:563-593` | the bucket loop finds the next non-empty bucket, going on to the second table during a migration |
| `Resp.String2ll` | `redis-2.8.19/src/util.c:308-369` | the digit loop with its overflow checks accepts exactly the plain decimal forms of 64-bit signed numbers, with their value |
| `Resp.ParseDec` | `redis-2.8.19/src/util.c:251-303` | parsing a printed number gives it back |
| `Resp.ParseExact` | `redis-2.8.19/src/util.c:251-369` | the parser accepts exactly the printed forms of 64-bit signed numbers, negative ones included, and gives the number back |
| `Resp.CatGenericCommand` | `redis-2.8.19/src/aof.c:392-415` | the bytes appended for an argument vector are its multi-bulk form |
| `Resp.PrintAllAppend` | `redis-2.8.19/src/aof.c:392-415` | printing two lists of commands one after the other prints their concatenation |
| `RequestParser.ArgsTrack` | `redis-2.8.19/src/networking.c:985-1063` | the argument loop, resumed anywhere in a well-formed vector, consumes exactly what has arrived of it and leaves what is still to come |
| `RequestParser.CommandTracks` | `redis-2.8.19/src/networking.c:940-1076` | on a printed command of which any prefix has arrived: done exactly when all of it has, with that vector and the unread suffix; a protocol error exactly when the size guard meets an incomplete header |
| `RequestParser.ReadsAreSized` | `redis-2.8.19/src/networking.c:1117-1178` | the read sizes that the event loop asks for keep the buffer short or ending with the big argument being read |
| `RequestParser.SizedIsFine` | `redis-2.8.19/src/networking.c:948-998` | in such buffers neither size guard fires on a valid command |
| `RequestParser.GuardCanFire` | `redis-2.8.19/src/networking.c:989-998` | without that limit a valid command of four arguments, three of them fully received, is answered with a protocol error |
| `RequestParser.CountLine` | `redis-2.8.19/src/networking.c:948-983` | the first line of a request: anything but a number up to the limit is a protocol error that leaves the buffer; a number below one is skipped; any other is the number of arguments awaited |
| `RequestParser.ArgumentLine` | `redis-2.8.19/src/networking.c:989-1031` | the line before an argument: without the mark, without a number or with one out of range it is a protocol error at that place; otherwise that many bytes are awaited, at the front of the buffer if they are many |
| `RequestParser.EndlessLine` | `redis-2.8.19/src/networking.c:948-998` | a line that does not end within the limit is a protocol error |
| `QueryBuffer.Client.ProcessMultibulkBuffer` | `redis-2.8.19/src/networking.c:940-1076` | for any buffer contents: fields, buffer and outcome are those of the specification, errors included |
| `QueryBuffer.Client.ReadArguments` | `redis-2.8.19/src/networking.c:985-1072` | the argument loop with its in-place buffer trimming computes the specification |
| `QueryBuffer.Client.ReadBulkHeader` | `redis-2.8.19/src/networking.c:989-1020` | the length line of an argument: found, incomplete, or one of the protocol errors |
| `QueryBuffer.Client.ProcessOne` | `redis-2.8.19/src/networking.c:1078-1115` | one round executes the next command exactly when it is complete, else waits for more |
| `QueryBuffer.Client.ProcessInputBuffer` | `redis-2.8.19/src/networking.c:1078-1115` | every complete command in the buffer is executed, in order |
| `QueryBuffer.Client.ReadQuery` | `redis-2.8.19/src/networking.c:1117-1178` | a read of any size keeps the split between executed commands, buffer and bytes still on the wire |
| `QueryBuffer.Serve` | `redis-2.8.19/src/networking.c:1078-1178` | whatever sizes the reads return, exactly the printed commands are executed in order, without a protocol error; after enough reads all of them |
| `AofLog.LoadPrinted` | `redis-2.8.19/src/aof.c:555-704` | loading a printed log runs exactly the printed commands, in order |
| `AofLog.StreamsLoads` | `redis-2.8.19/src/aof.c:555-704` | bytes that are a log of some data load without an error, to that data and its selected database |
| `AofLoad.LoadAppendOnlyFile` | `redis-2.8.19/src/aof.c:555-704` | the loading loops compute what loading means; a file that is cut off within a command is refused, or truncated to its complete commands when the option is on |
| `AofLoad.LoadCut` | `redis-2.8.19/src/aof.c:555-704` | a log that ends anywhere loads to what its complete commands do, and what is left over is the beginning of the next command: no cut is mistaken for something else |
| `AofLoad.CrashRecovers` | `redis-2.8.19/src/aof.c:230-704` | after a crash that leaves any beginning of the log of a safe server, loading gives what the first commands of the log do, as many as are complete, and the file kept is a log of that; with nothing missing it is the live data |
| `AofLoad.WholeIs` | `redis-2.8.19/src/aof.c:590-664` | the complete commands are the longest run of first commands within the bytes that are there |
| `AofLog.FeedStreams` | `redis-2.8.19/src/aof.c:454-502` | a fed command, with the SELECT it may need, extends a log of the old data to a log of the new data |
| `AofLog.FeedDiffers` | `redis-2.8.19/src/aof.c:454-502` | the same for the differences a child must catch up on, which start without any selected database |
| `AofLog.JoinStreams` | `redis-2.8.19/src/aof.c:1172-1230` | the child's file followed by the differences is a log of the live data |
| `AofRewrite.RewriteListObject` | `redis-2.8.19/src/aof.c:726-779` | the chunked writer prints RPUSH commands of at most 64 items that together carry exactly the items, in order |
| `AofRewrite.ChunksRebuild` | `redis-2.8.19/src/aof.c:726-779` | replaying those chunks appends the items to the list |
| `AofRewrite.ChunkSizes` | `redis-2.8.19/src/aof.c:734-756` | command k of a list carries items 64*k to 64*(k+1), the last one what is left |
| `AofRewrite.RewriteDb` | `redis-2.8.19/src/aof.c:980-1030` | one database, its keys in any order, extends the file to a log that also has that database |
| `AofRewrite.RewriteAppendOnlyFile` | `redis-2.8.19/src/aof.c:962-1064` | the file written by the child is a log of the snapshot |
| `Aof.AppendBlocksConcat` | `redis-2.8.19/src/aof.c:89-126` | the block list holds what was appended to it, in blocks that are full except the last |
| `Aof.BufferSize` | `redis-2.8.19/src/aof.c:77-86` | the size computed from the number of blocks and the last one is the number of bytes held |
| `Aof.FlushMoves` | `redis-2.8.19/src/aof.c:230-390` | whatever part of the buffer is written, and whether or not a short write is undone, file and buffer together stay the same bytes |
| `Aof.FlushMovesExactly` | `redis-2.8.19/src/aof.c:230-390` | with a non-empty buffer, every outcome of the write keeps these bytes if and only if the size a short write is truncated to is the size of the file |
| `Aof.FlushWrites` | `redis-2.8.19/src/aof.c:230-390` | a complete write empties the buffer into the file, a short one moves as many bytes as it took, or none if it is undone |
| `Aof.FileAloneLoads` | `redis-2.8.19/src/aof.c:165-390` | after a complete write the file alone loads to the live data, and so it does after a stop with such a write |
| `Aof.FlushSafe` | `redis-2.8.19/src/aof.c:230-390` | a flush with any outcome keeps the log safe |
| `Aof.ExecuteSafe` | `redis-2.8.19/src/aof.c:454-502` | a command keeps both streams safe |
| `Aof.ForkSafe` | `redis-2.8.19/src/aof.c:1078-1129` | starting a child keeps the log safe, and its snapshot with no differences leads to the live data |
| `Aof.SwapSafeExactly` | `redis-2.8.19/src/aof.c:1172-1313` | the swap of files is safe (its log is good and the recorded size right) if and only if the size the server keeps is the size of the new file |
| `Aof.StepSafeExactly` | `redis-2.8.19/src/aof.c:165-1313` | every step keeps the log safe (recorded size included) if and only if it is not a swap after which fstat fails and the old size is wrong |
| `Aof.StepKeepsLogExactly` | `redis-2.8.19/src/aof.c:165-1313` | a step leaves the server where executing some command and flushing changes bytes of the log if and only if it is such a swap |
| `Aof.RunSafe` | `redis-2.8.19/src/aof.c:165-1313` | so does every run without such a step |
| `Aof.LogAlwaysLoads` | `redis-2.8.19/src/aof.c:165-1313` | at every moment of such a run with the AOF on, loading the file followed by the unwritten buffer gives the live data and the selected database |
| `Aof.StateChanges` | `redis-2.8.19/src/aof.c:165-1313` | which steps turn the AOF on, off or into waiting, and which start or end a child; a swap turns it on whatever fstat answers |
| `Aof.StaysOn` | `redis-2.8.19/src/aof.c:1172-1313` | in every run the AOF is on from a swap until the next stop |
| `Aof.StartedTurnsOn` | `redis-2.8.19/src/aof.c:192-1313` | in every run without a stale swap, from a start whose child succeeds: the AOF waits with the snapshot while the child works, and from the swap until the next stop it is on, and file and buffer load to the live data |
| `Aof.RewriteAlwaysLoads` | `redis-2.8.19/src/aof.c:89-172` | at every moment of such a run with a child at work, loading any log of its snapshot followed by the rewrite buffer gives the live data and the selected database |
| `Aof.StaleSizeLosesData` | `redis-2.8.19/src/aof.c:1155-1168` | there is a run of four steps in which fstat fails after the swap and a key written before is lost from the log |
| `Aof.AofServer.constructor` | `redis-2.8.19/src/aof.c:192-209` | a server with the AOF on and an empty file is safe |
| `Aof.AofServer.RewriteBufferAppend` | `redis-2.8.19/src/aof.c:89-126` | the loop over blocks computes the block list of the specification |
| `Aof.AofServer.FeedAppendOnlyFile` | `redis-2.8.19/src/aof.c:454-502` | the command, after a SELECT exactly when its database is not the one selected last, is appended to the buffer when the AOF is on and to the rewrite buffer when a child works; the fields are those of the specification |
| `Aof.AofServer.ExecuteCommand` | `redis-2.8.19/src/aof.c:454-502` | a command that has an effect is applied to the data and fed, any other changes nothing; the server stays safe |
| `Aof.AofServer.FlushAppendOnlyFile` | `redis-2.8.19/src/aof.c:230-390` | fields after any outcome of the write are those of the specification, a complete write moves the whole buffer to the file; the server stays safe |
| `Aof.AofServer.RewriteInBackground` | `redis-2.8.19/src/aof.c:1078-1129` | exactly when there is no child yet and the fork succeeds, the child gets the snapshot and the parent forgets the selected database |
| `Aof.AofServer.BackgroundRewriteDone` | `redis-2.8.19/src/aof.c:1172-1313` | every way the child can end: when its file is put in place it is followed by the differences and the AOF is on, otherwise file, buffer and state stay; the child and its block list are gone |
| `Aof.AofServer.StopAppendOnly` | `redis-2.8.19/src/aof.c:165-188` | the last flush, the end of the child and the state change; with a complete write the file holds everything |
| `Aof.AofServer.StartAppendOnly` | `redis-2.8.19/src/aof.c:192-209` | the AOF waits for a child that has the snapshot, or nothing changes on an error |
| `LzfFormat.ExpandToken` | `redis-2.8.19/src/lzf_d.c:64-148` | one encoded token, read anywhere in a string, emits what it stands for and is stepped over |
| `LzfFormat.ExpandEncoded` | `redis-2.8.19/src/lzf_d.c:64-148` | expanding an encoded token sequence gives its meaning |
| `LzfFormat.AcceptsEncodings` | `redis-2.8.19/src/lzf_d.c:56-148` | the decompressor accepts exactly the encodings of token sequences that fit the output: cut-off tokens, references to before the start and too much output are the errors |
| `LzfFormat.CopyBackMatch` | `redis-2.8.19/src/lzf_d.c:110-146` | copying back byte by byte reproduces repeated data even when source and destination overlap |
| `Lzf.CopyReference` | `redis-2.8.19/src/lzf_d.c:110-146` | the copy loop writes what copying back means |
| `Lzf.DecompressRound` | `redis-2.8.19/src/lzf_d.c:64-146` | one round computes the specification of a round, error returns included |
| `Lzf.Decompress` | `redis-2.8.19/src/lzf_d.c:56-148` | the bytes written are the expansion of the input, and 0 is returned exactly on the errors of the format |
| `Lzf.IsMatch` | `redis-2.8.19/src/lzf_c.c:149-166` | an arbitrary table entry is taken for a match if and only if it points back into the input, near enough, at three equal bytes, with more than four bytes left |
| `Lzf.MatchLength` | `redis-2.8.19/src/lzf_c.c:169-209` | the unrolled and the plain comparison loop stop only at the limit or at a differing byte: the length is the longest |
| `LzfPlan.LongestIs` | `redis-2.8.19/src/lzf_c.c:169-209` | no other length has the data repeat up to it and not beyond it or the limit |
| `Lzf.WriteReference` | `redis-2.8.19/src/lzf_c.c:211-224` | the bytes written are the encoding of the reference token |
| `Lzf.PutLiteral` | `redis-2.8.19/src/lzf_c.c:262-272` | a literal extends the open run; a full run is closed and paid for |
| `Lzf.PutMatch` | `redis-2.8.19/src/lzf_c.c:167-227` | a match closes or drops the literal run before it, and pays for its own bytes and that header |
| `Lzf.PutTail` | `redis-2.8.19/src/lzf_c.c:276-293` | the last bytes are literals and the last run gets its header |
| `Lzf.Compress` | `redis-2.8.19/src/lzf_c.c:99-293` | for any initial table: a nonzero result expands to the input and is the size of the greedy choice of matches for that table; it is at most n + n/32 + 1; it is nonzero when the output has four bytes more than that size, or n + n/32 + 4 |
| `Lzf.CompressRound` | `redis-2.8.19/src/lzf_c.c:137-275` | a round takes the longest match at the entry of the table, or one more literal, and what is written so far plus what the greedy choice still needs stays the size; it gives up only when that size does not fit |
| `LzfPlan.EqualBytes` | `redis-2.8.19/src/lzf_c.c:99-293` | repetition is compressed: n equal bytes take at most 9 + 3*(n/264) bytes, whatever the table held |
| `Lzf.RoundTrip` | `redis-2.8.19/src/lzf_c.c:99-293` | compressing and decompressing into a buffer of the original length gives the original bytes |
| `Lzf.MatchIsPaid` | `redis-2.8.19/src/lzf_c.c:167-227` | three matched bytes pay for a short reference and the run header before it, nine for a long one |
| `HllDense.SetGet` | `redis-2.8.19/src/hyperloglog.c:337-359` | writing one six-bit register changes that register and no other of the 16384 |
| `HllDense.GetIsGroupGet` | `redis-2.8.19/src/hyperloglog.c:504-558` | reading a register from the unrolled group of three bytes equals reading it with the macro |
| `Hll.SetRegister` | `redis-2.8.19/src/hyperloglog.c:349-359` | the macro on a byte array sets one entry of the decoded vector |
| `Hll.GetRegister` | `redis-2.8.19/src/hyperloglog.c:337-345` | the macro reads one entry of the decoded vector |
| `Hll.UnrolledRegisters` | `redis-2.8.19/src/hyperloglog.c:504-558` | the unrolled loop sees every register once, in order, and counts the zero ones |
| `HllSparse.Concat` | `redis-2.8.19/src/hyperloglog.c:363-385` | a string of opcodes after another one stands for its registers after the other's |
| `HllSparse.Replace` | `redis-2.8.19/src/hyperloglog.c:806-823` | replacing one opcode of a valid string by others replaces exactly its registers |
| `HllSparse.SplitRegs` | `redis-2.8.19/src/hyperloglog.c:758-806` | a split into up to three opcodes changes one register of the run |
| `HllSparse.MergeRegs` | `redis-2.8.19/src/hyperloglog.c:843-860` | merging two adjacent runs of one value changes no register |
| `HllSparse.MergeKeeps` | `redis-2.8.19/src/hyperloglog.c:825-861` | the scan that merges runs changes no register and never lengthens the string |
| `HllSparse.MergeIsTight` | `redis-2.8.19/src/hyperloglog.c:825-861` | when no two opcodes behind those scanned could be one, none in the whole string can after the scan |
| `HllSparse.UpdateTight` | `redis-2.8.19/src/hyperloglog.c:806-861` | replacing one opcode of a fully merged string by up to three, and scanning five opcodes from the one before it, gives a fully merged string |
| `HllSparse.GrowthIsSmall` | `redis-2.8.19/src/hyperloglog.c:647-652` | giving a register an opcode of its own takes at most three bytes more |
| `Hll.Hll.constructor` | `redis-2.8.19/src/hyperloglog.c:1089-1119` | a new object is a valid sparse string of two bytes and 16384 zero registers |
| `Hll.Hll.SparseToDense` | `redis-2.8.19/src/hyperloglog.c:568-620` | the conversion keeps every register |
| `Hll.Hll.DenseAdd` | `redis-2.8.19/src/hyperloglog.c:485-498` | the register is raised to the maximum, and 1 is returned exactly when it grew |
| `Hll.Hll.Locate` | `redis-2.8.19/src/hyperloglog.c:657-690` | the walk finds the opcode that covers the register, at an opcode boundary, and the one right before it, if there is one |
| `Hll.Hll.SplitOp` | `redis-2.8.19/src/hyperloglog.c:692-806` | the new opcodes, at most three and no more bytes than their runs need, stand for the registers of the old one with one of them changed |
| `Hll.Hll.MergeAdjacent` | `redis-2.8.19/src/hyperloglog.c:825-861` | the loop over five opcodes computes the merging of the specification, with the same registers |
| `Hll.Hll.MergeRound` | `redis-2.8.19/src/hyperloglog.c:831-861` | one round steps over an opcode, or makes it and the next one a single one exactly when both are runs of one value that fit |
| `Hll.Hll.NewOpcodes` | `redis-2.8.19/src/hyperloglog.c:652-806` | the opcode that covers the register is found, and when the register grows, the opcodes that take its place make a valid string with that register raised and no other changed, longer by what the specification says; merging from the opcode before it leaves no two opcodes that could be one |
| `Hll.Hll.SparseAdd` | `redis-2.8.19/src/hyperloglog.c:638-882` | for every valid sparse string: a valid string with one register raised to the maximum, 1 exactly when it grew; it stays sparse exactly when nothing grows, or the count fits an opcode and the longer string fits the limit (three bytes below it always); a fully merged string stays so |
| `Hll.Hll.Promote` | `redis-2.8.19/src/hyperloglog.c:868-882` | the dense add after a promotion always reports a change |
| `Hll.Hll.Add` | `redis-2.8.19/src/hyperloglog.c:1027-1034` | the same in either encoding; a dense object stays dense |
| `Hll.Hll.RegistersSmall` | `redis-2.8.19/src/hyperloglog.c:197-198` | every register fits six bits in either encoding |
| `Hll.Hll.MergeInto` | `redis-2.8.19/src/hyperloglog.c:1044-1083` | the array becomes the pointwise maximum of itself and the object's registers, in either encoding |
| `Hll.AddsAreMaxima` | `redis-2.8.19/src/hyperloglog.c:485-498` | after any sequence of adds a register is the largest pattern length among its elements, 0 without any |
| `Hll.OrderIrrelevant` | `redis-2.8.19/src/hyperloglog.c:485-498` | two sequences with the same elements give the same registers |
| `Hll.UnionLaw` | `redis-2.8.19/src/hyperloglog.c:1044-1083` | merging the registers of A and of B gives those of A followed by B |
| `Hll.AddStream` | `redis-2.8.19/src/hyperloglog.c:1155-1192` | a stream of adds to an object leaves it holding these maxima, whatever encoding it ends up in; a sparse string still has no two opcodes that could be one and keeps to the limit |
| `Hll.PfMerge` | `redis-2.8.19/src/hyperloglog.c:1285-1343` | the destination, created if it does not exist, becomes dense and holds the pointwise maximum over its own registers and those of the other objects |
| `Hll.MergeIsUnion` | `redis-2.8.19/src/hyperloglog.c:1285-1343` | merging any number of objects that hold the maxima of their streams gives the maxima of all streams together |
| `Hll.AddAndMerge` | `redis-2.8.19/src/hyperloglog.c:1155-1343` | adding two streams to two new keys and merging these gives the registers of the union, in whatever encodings the keys were |
| `Pqsort.Med3` | `redis-2.8.19/src/pqsort.c:87-96` | the result is one of the three positions and a median of them |
| `Pqsort.InsertionSort` | `redis-2.8.19/src/pqsort.c:107-113` | a short segment is sorted, by a permutation of the segment only |
| `Pqsort.Partition` | `redis-2.8.19/src/pqsort.c:126-151` | the four pointers end with equal, less, greater and equal regions around any pivot, by a permutation of the segment only |
| `Pqsort.PartitionEqual` | `redis-2.8.19/src/pqsort.c:126-156` | after the two block exchanges the segment is less, equal, greater, with at least one equal element |
| `Pqsort.VecSwap` | `redis-2.8.19/src/pqsort.c:86-86` | two blocks change places and nothing else moves |
| `Pqsort.SortSegment` | `redis-2.8.19/src/pqsort.c:98-177` | for every choice of pivots the recursion ends with every window position of the segment settled, by a permutation of the segment |
| `Pqsort.RestSettled` | `redis-2.8.19/src/pqsort.c:157-177` | skipping a part that does not meet the window leaves no window position unsettled |
| `Pqsort.Sort` | `redis-2.8.19/src/pqsort.c:179-185` | the array is a permutation of the input, every window position has only elements not above it before and not below it after, and it agrees with every full sort of the input |
| `Pqsort.SettledAgrees` | `redis-2.8.19/src/pqsort.c:179-185` | a settled position holds, up to equality under the comparison, what any sort of the same elements has there |
| `WatchHistory.WatchingMeaning` | `redis-2.8.19/src/multi.c:202-259` | a watch is in force exactly when it was set and not lifted since |
| `WatchHistory.DirtyMeaning` | `redis-2.8.19/src/multi.c:261-305` | a client is dirty exactly when some watched key was touched, or flushed while it existed, under a watch in force, and the client was not cleared since |
| `WatchHistory.ForeignEvents` | `redis-2.8.19/src/multi.c:202-305` | what is not the client's own doing leaves its watches and watched values alone, and makes it dirty exactly when it hits a watched key |
| `WatchSpec.WatchForKeeps` | `redis-2.8.19/src/multi.c:202-229` | watching keeps both indexes in agreement and without duplicates, and flags and lists true to the history |
| `WatchSpec.UnlinkAllKeeps` | `redis-2.8.19/src/multi.c:233-257` | unwatching everything empties the client's own list, keeps the indexes in agreement and changes no other list |
| `WatchSpec.TouchKeeps` | `redis-2.8.19/src/multi.c:261-278` | a changed and touched key makes exactly its watchers dirty; clean clients still see the values they watched |
| `WatchSpec.TouchAllKeeps` | `redis-2.8.19/src/multi.c:284-305` | the same for a flush, by way of the clients' own lists |
| `WatchSpec.ClearKeeps` | `redis-2.8.19/src/multi.c:72-77` | resetting a flag keeps the history's account of it |
| `Multi.DoKeeps` | `redis-2.8.19/src/multi.c:144-166` | every command keeps the whole invariant, has its effect on the data, and makes no client dirty that watches nothing |
| `Multi.WrittenIsRead` | `redis-2.8.19/src/multi.c:144-166` | a command changes exactly the keys it writes: a SET leaves the value, a DEL or a flush nothing |
| `Multi.GetAnswers` | `redis-2.8.19/src/multi.c:144-166` | among commands run one after the other a GET answers what the key then holds in the selected database, a DEL whether it was there |
| `Multi.Server.WatchForKey` | `redis-2.8.19/src/multi.c:202-229` | the scan of the client's list and the two insertions do what the specification says, duplicates refused |
| `Multi.Server.UnlinkFirst` | `redis-2.8.19/src/multi.c:239-256` | one round takes client and key off each other's lists and drops an empty list |
| `Multi.Server.ListedAt` | `redis-2.8.19/src/multi.c:243-246` | the assertion in the loop holds: the list exists and has the client |
| `Multi.Server.UnwatchAllKeys` | `redis-2.8.19/src/multi.c:233-257` | the loop ends with the client on no list |
| `Multi.Server.TouchWatchedKey` | `redis-2.8.19/src/multi.c:261-278` | exactly the clients on the key's list become dirty |
| `Multi.Server.TouchWatchedKeysOnFlush` | `redis-2.8.19/src/multi.c:284-305` | exactly the clients watching an existing key of the flushed databases become dirty |
| `Multi.Server.FlushCommand` | `redis-2.8.19/src/db.c:248-276` | watchers are told before the keys are gone |
| `Multi.Server.Call` | `redis-2.8.19/src/multi.c:144-166` | a command has its effect on data, watches, database and reply, and keeps the invariant |
| `Multi.Server.DiscardTransaction` | `redis-2.8.19/src/multi.c:72-77` | queue, flags and watches are gone, and the invariant holds |
| `Multi.Server.ExecCommand` | `redis-2.8.19/src/multi.c:114-182` | with the client dirty by the history, or its queue spoilt, nothing runs, data and database stay, and the one reply is the abort error if it was spoilt and a null multi-bulk otherwise; else all queued commands run in order on data where every watched key holds what it held when it was put under watch, and their replies follow a multi-bulk header; either way transaction and watches are over |
| `Multi.Server.FlagsTold` | `redis-2.8.19/src/multi.c:125-138` | for every client the flag and the list are what the history says, and a clean client's watched keys are unchanged |
| `Multi.Server.RunCommands` | `redis-2.8.19/src/multi.c:144-166` | the loop's replies, data and selected database are those of the commands run one after the other |
| `Multi.Server.MultiCommand` | `redis-2.8.19/src/multi.c:86-93` | MULTI starts a transaction, refuses to nest, and changes nothing else |
| `Multi.Server.DiscardCommand` | `redis-2.8.19/src/multi.c:95-102` | DISCARD ends a transaction and its watches without changing data or database; outside one it is an error that changes nothing |
| `Multi.Server.WatchCommand` | `redis-2.8.19/src/multi.c:307-317` | the client watches its old keys and the given ones, in order and without duplicates, in its current database; refused inside a transaction |
| `Multi.Server.UnwatchCommand` | `redis-2.8.19/src/multi.c:319-323` | the client watches nothing and is clean |
| `Multi.Server.ProcessCommand` | `redis-2.8.19/src/redis.c:2024-2170` | every request keeps the invariant and leaves the data and the state of the client that the request asks for: inside a transaction commands are only queued, flagged errors spoil the queue, EXEC runs everything or nothing by the history, and what a request adds to the history of other clients is only the keys it touches |
| `Multi.Server.RunScript` | `redis-2.8.19/src/multi.c:60-112` | between MULTI and EXEC the commands of the client are queued and answered so, whatever other clients ask for in between, and none of their requests is its doing |
| `Multi.Server.Transaction` | `redis-2.8.19/src/multi.c:86-182` | optimistic locking over any interleaving: WATCH, MULTI, commands among any requests of other clients, EXEC; nothing runs if and only if a watched key was hit, which is so whenever its value has changed; otherwise all commands run, one after the other |
| `Multi.Server.AddClient` | `redis-2.8.19/src/networking.c:97-114` | a new client is on no list and clean |
| `Multi.Server.FreeClient` | `redis-2.8.19/src/networking.c:678-702` | a freed client is on no list of the server |
| `ReplyStream.Client.constructor` | `redis-2.8.19/src/networking.c:75-100` | a new client has sent nothing and owes nothing |
| `ReplyStream.Client.DupLastObjectIfNeeded` | `redis-2.8.19/src/networking.c:145-157` | the last object becomes one that the list alone refers to; other references to the old one stay counted |
| `ReplyStream.Client.AppendToTail` | `redis-2.8.19/src/networking.c:187-206` | bytes are appended to the last object exactly when they fit a chunk, and no object with other owners changes |
| `ReplyStream.Client.AddReplyToBuffer` | `redis-2.8.19/src/networking.c:163-178` | the buffer takes the bytes exactly when the list is empty and they fit |
| `ReplyStream.Client.AddReplyObjectToList` | `redis-2.8.19/src/networking.c:180-207` | the stream grows by the object's bytes; the caller's own references are unchanged |
| `ReplyStream.Client.AddReplyStringToList` | `redis-2.8.19/src/networking.c:211-271` | the stream grows by the bytes |
| `ReplyStream.Client.AddReply` | `redis-2.8.19/src/networking.c:278-312` | whatever path is taken, sent and unsent bytes together are the stream of all replies in call order |
| `ReplyStream.Client.AddReplyString` | `redis-2.8.19/src/networking.c:314-332` | the same for strings |
| `ReplyStream.Client.AddDeferredMultiBulkLength` | `redis-2.8.19/src/networking.c:381-388` | a hole at the end of the stream |
| `ReplyStream.Client.FillNode` | `redis-2.8.19/src/networking.c:399-401` | writing the length fills its hole and nothing else |
| `ReplyStream.Client.Glue` | `redis-2.8.19/src/networking.c:402-412` | gluing the next object on changes no byte of the stream and drops one reference |
| `ReplyStream.Client.SetDeferredMultiBulkLength` | `redis-2.8.19/src/networking.c:391-414` | the length takes its place in the stream, in whatever order holes are filled; the next object is glued on exactly when it is one and no hole |
| `ReplyStream.Client.SentFromBuffer` | `redis-2.8.19/src/networking.c:783-795` | bytes taken from the buffer move from unsent to sent; sentlen starts anew when it is empty |
| `ReplyStream.Client.SentFromList` | `redis-2.8.19/src/networking.c:796-818` | bytes taken from the first object move from unsent to sent; the object leaves when all are |
| `ReplyStream.Client.SendSome` | `redis-2.8.19/src/networking.c:783-833` | one round of the loop: the buffer goes first, exactly an empty object is skipped, the socket takes what it is given up to its own limit, and no byte is lost |
| `ReplyStream.Client.SendLoop` | `redis-2.8.19/src/networking.c:783-833` | the loop ends only when nothing is left, the socket takes nothing, or more than 64 KB are sent without the memory limit being exceeded; what it sent is what the socket took |
| `ReplyStream.Client.SendReplyToClient` | `redis-2.8.19/src/networking.c:774-854` | for any answers of the socket no byte is lost, repeated or reordered; it goes on until nothing is left, the socket takes nothing or the limit per event is passed, so with enough positive answers everything is sent; no reference is leaked; the client is dropped exactly when it is closing and nothing is left |
| `Intset.EncodingIsLeast` | `redis-2.8.19/src/intset.c:45-52` | a value fits a width exactly when its own encoding is not larger |
| `Intset.LoadStore` | `redis-2.8.19/src/intset.c:55-94` | a stored value is read back, negative ones included |
| `Intset.AtWritten` | `redis-2.8.19/src/intset.c:81-94` | writing one value changes the reading of no other |
| `Intset.Set.constructor` | `redis-2.8.19/src/intset.c:97-102` | a new set is empty and two bytes wide |
| `Intset.Set.Get` | `redis-2.8.19/src/intset.c:55-78` | reading a position gives the value of the view |
| `Intset.Set.Put` | `redis-2.8.19/src/intset.c:81-94` | the bytes of one place become the stored form of the value |
| `Intset.Set.Resize` | `redis-2.8.19/src/intset.c:105-109` | the bytes in common are kept |
| `Intset.Set.Search` | `redis-2.8.19/src/intset.c:115-154` | found exactly when the value is in the set; the position is that of the value, or the only place where it can be inserted |
| `Intset.Set.TooWide` | `redis-2.8.19/src/intset.c:204-214` | a value that does not fit the width is not in the set and lies before or behind all of it |
| `Intset.Set.Widen` | `redis-2.8.19/src/intset.c:167-171` | one round of the back-to-front loop moves one value to its wider place and touches no byte that is still to be read |
| `Intset.Set.WidenAll` | `redis-2.8.19/src/intset.c:157-171` | after the loop all values stand in the new width with a place at the front or the back |
| `Intset.Set.UpgradeAndAdd` | `redis-2.8.19/src/intset.c:157-180` | the set is widened in place and the value put before or behind all others, by its sign |
| `Intset.Set.MoveTail` | `redis-2.8.19/src/intset.c:182-201` | the values of the tail read the same at their new positions |
| `Intset.Set.Add` | `redis-2.8.19/src/intset.c:204-231` | the set gains exactly the value, stays ascending, in the smallest sufficient width seen so far; success exactly when it was absent |
| `Intset.Set.Remove` | `redis-2.8.19/src/intset.c:234-251` | the set loses exactly the value and stays ascending; success exactly when it was there |
| `Intset.Set.Find` | `redis-2.8.19/src/intset.c:254-257` | membership |
| `Bitops.PairsAdd` | `redis-2.8.19/src/bitops.c:84-91` | subtracting the high bits of all pairs leaves in every pair the number of its ones |
| `Bitops.ParallelCounts` | `redis-2.8.19/src/bitops.c:84-95` | the multiply-and-shift steps count the ones of the four bytes of a word |
| `Bitops.Popcount` | `redis-2.8.19/src/bitops.c:61-101` | for every length and alignment the result is the number of set bits |
| `Bitops.WordSkipped` | `redis-2.8.19/src/bitops.c:136-144` | a skipped word has no bit of the kind |
| `Bitops.LoadBig` | `redis-2.8.19/src/bitops.c:146-161` | the loading loop gives the next eight bytes, the first one highest, continued with zeros |
| `Bitops.WordBit` | `redis-2.8.19/src/bitops.c:170-182` | bit i of that word, from the left, is bit i of the string from there on |
| `Bitops.ScanWord` | `redis-2.8.19/src/bitops.c:170-188` | the scan ends at the first bit of the kind; its panic is never reached |
| `Bitops.ZeroWordMeans` | `redis-2.8.19/src/bitops.c:163-168` | the word is zero only when no set bit is left in the string |
| `Bitops.Bitpos` | `redis-2.8.19/src/bitops.c:111-188` | for every length and alignment the first bit of the kind, else -1 for ones and the length in bits for zeros |
| `Bitop.CombinedBits` | `redis-2.8.19/src/bitops.c:412-425` | every bit of the byte-wise result is the conjunction, disjunction, parity or negation of the bits of the strings, missing bytes being zero |
| `Bitop.ApplyGet` | `redis-2.8.19/src/bitops.c:359-410` | an operation on words in memory is the operation on each of their bytes |
| `Bitop.CombineWord` | `redis-2.8.19/src/bitops.c:359-398` | one word of the result takes in one word of a string |
| `Bitop.FastRound` | `redis-2.8.19/src/bitops.c:359-410` | a round of four words over all strings gives the byte-wise result on its 32 bytes |
| `Bitop.FastPath` | `redis-2.8.19/src/bitops.c:347-410` | the fast path gives the byte-wise result up to where it stops, which is within the shortest string |
| `Bitop.SlowByte` | `redis-2.8.19/src/bitops.c:412-425` | the inner loop gives the byte-wise result, reading zero beyond the end of a string |
| `Bitop.Lengths` | `redis-2.8.19/src/bitops.c:311-339` | the lengths kept are the longest and the shortest one |
| `Bitop.Perform` | `redis-2.8.19/src/bitops.c:307-426` | the result is as long as the longest string and equals the byte-wise operation everywhere, with or without the fast path |
| `Rand.MulHalves` | `redis-2.8.19/src/rand.c:48-51` | the product of two limbs survives the signed 32-bit variable: low and high half give it back |
| `Rand.SumHalves` | `redis-2.8.19/src/rand.c:52-53` | a sum of two limbs is its low half and its carry |
| `Rand.NoLostCarry` | `redis-2.8.19/src/rand.c:80-92` | the three limbs computed are the whole of A*X + C modulo 2^48 |
| `Rand.Generator.Next` | `redis-2.8.19/src/rand.c:80-92` | the statements of next put the new limbs into the old ones and advance the state by the drand48 formula |
| `Rand.Generator.Lrand48` | `redis-2.8.19/src/rand.c:71-74` | the result is the new state shifted right by 17, in [0, 2^31) |
| `Rand.Generator.Srand48` | `redis-2.8.19/src/rand.c:76-78` | the seed gives the high 32 bits of the state, 0x330E the low 16 |
| `Rand.StepIsInvertible` | `redis-2.8.19/src/rand.c:80-92` | every 48-bit state has exactly one predecessor |
| `Rand.StepIsInjective` | `redis-2.8.19/src/rand.c:80-92` | different states have different successors |
| `Rand.NextIsInjective` | `redis-2.8.19/src/rand.c:80-92` | on the limbs: different states have different successors |
| `Bio.EveryInterleaving` | `redis-2.8.19/src/bio.c:126-199` | in every interleaving of any number of callers with the worker the whole invariant holds |
| `Bio.HeadIsRemoved` | `redis-2.8.19/src/bio.c:166-188` | the node that the worker deletes after processing is still the head of the queue |
| `Bio.PendingIsQueueLength` | `redis-2.8.19/src/bio.c:126-199` | whenever the lock is free the counter is the length of the queue |
| `Bio.JobsCompleteInOrder` | `redis-2.8.19/src/bio.c:126-189` | jobs complete in submission order, none twice, and all of them once the queue is empty |
| `Bio.PendingTellsWhatIsDone` | `redis-2.8.19/src/bio.c:192-199` | a reading of n: exactly the jobs before the last n submitted are done, and perhaps the first of these; 0 means that all are |
| `Bio.HistoryGrows` | `redis-2.8.19/src/bio.c:126-199` | nothing submitted or completed is taken back |
| `Bio.CallerCanStep` | `redis-2.8.19/src/bio.c:126-199` | a thread in a call is held up only by the lock |
| `Bio.WorkerCanStep` | `redis-2.8.19/src/bio.c:158-189` | as long as a job waits the worker is never left sleeping: no wake-up is lost |
| `Bio.WorkerDrains` | `redis-2.8.19/src/bio.c:158-189` | from every reachable state outside callers' critical sections the worker alone completes everything submitted |
| `Bio.CallIsSubmitted` | `redis-2.8.19/src/bio.c:126-139` | in every interleaving a call that creates a job is on its way to the queue or has put that job there |
| `Bio.CallSubmits` | `redis-2.8.19/src/bio.c:126-139` | an undisturbed call appends its job, counts it, wakes the worker and gives the lock back |
| `Bio.AskReads` | `redis-2.8.19/src/bio.c:192-199` | an undisturbed question reads the length of the queue |

## Left out

- The Rails application, its workers, mailers, migrations and scraper: database plumbing and network input.
- Chains of hash table entries are sequences, so that relinking a node is an update of a sequence; identities of nodes are serial numbers. Aliasing between chains cannot be expressed that way.
- The number of nodes of a hash table is assumed to stay below half of the largest signed word where a growth is computed; allocation always succeeds.
- Dict.Dict.Replace: while a safe iterator is active only plain adds, finds and deletes are part of the runs; overwriting a value is not.
- Unsafe iterators and the fingerprint that detects their misuse, random keys, and the hash functions, which are arbitrary functions.
- Inline requests: a stream of printed commands never starts one, so the parser model ends where the inline parser would begin. Commands always succeed and never block the client.
- The query buffer is a string of bytes without the reallocation tricks for big arguments; lengths above the protocol limits are errors as in the code.
- The AOF command language is SELECT, SET, DEL and RPUSH. Key expiry, the translation of relative times, MULTI blocks in the file, scripts, the exit of the `always` policy, and a rewrite started while the AOF is off are not part of it.
- AofLoad.LoadAppendOnlyFile: lines are read without the 127-byte limit of the line buffer, numbers without signs or blanks before them, and reads do not fail; an unknown command, which stops the server, is skipped.
- Sets, hashes and sorted sets in the rewrite: their writers repeat the chunking of lists.
- Lzf.Compress: the output array has one byte more than the bound it is given, which is where the run header past the end would go; the corrupted-input checks of the decompressor are the error results of `Lzf.Decompress`.
- Corrupted HyperLogLog strings, the cached cardinality, and the floating-point estimate; elements are (register, pattern length) pairs with arbitrary hashing.
- Hll.PfMerge: source keys that do not exist are simply not among the sources; a shared destination value is changed in place instead of being copied first.
- Pqsort.Sort: elements are moved as whole values, not as machine words of an arbitrary element size.
- WATCH is stated in terms of touch events. MOVE, PERSIST and lazy expiry change keys without such an event and are not among the commands of the model, so that the promise about watched values is for GET, SET, DEL, SELECT, FLUSHDB, FLUSHALL and UNWATCH.
- Multi.Server.ProcessCommand: which of the many checks before a command rejects it is a parameter, and so is whether it sets the dirty flag; propagation to replicas and monitors is not modelled.
- Replies to clients that are masters or scripts; output buffer limits; integer-encoded objects, which are printed and then added like strings; sizes of replies are not limited to a signed 32-bit integer.
- Intset.Set.Add: lengths are limited to those whose byte size, in the encoding they end up in, fits the unsigned 32-bit variable that holds it; reallocation is a new array with the bytes in common.
- Bitops.Popcount: the table of the 256 byte counts is the function that it tabulates.
- Bitop.Perform: strings are already looked up and decoded, and an absent key is an empty string.
- Rand.Generator.Next: the period of the generator; only that it permutes the states.
- Bio.EveryInterleaving: one job type, since types share no state; starting and killing threads is not modelled, nor is what a job does.
- `config.c`, `notify.c`, replication, scripting, the event loop and logging: option tables, system calls and text.
