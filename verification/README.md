# A model of the data-oriented storage engine

This project models the storage engine of the repository in Dafny and proves what its
operations keep, undo and leave alone. Code that changes arrays in place is modelled as
classes over arrays with the same loops and branches. Each method is tied to a
specification function or a relation on the old state, and the theorems are stated about
those functions, over every input, every reachable state or every run of operations.

| file | what it models |
|---|---|
| `Common.dfy` | 64-bit mixing and power-of-two rounding, bits of naturals (`src/core/common.c`) |
| `LinearScan.dfy` | the linear find and count, the yardstick for the hash (`src/core/common.h`) |
| `DynArray.dfy` | the growable array and the row rearrangements of its removals (`src/core/array.c`, `array.h`) |
| `Chains.dfy`, `Index.dfy`, `Hash.dfy` | the chained hash index: chains as values, what a hash holds as a value, and the class over three arrays (`src/core/hash.c`) |
| `Relink.dfy`, `Removal.dfy`, `Witness.dfy` | the removal on every table, also where it goes wrong: the relink pass, the whole removal with its exact condition, and reachable tables and storages on both sides of it (`src/core/hash.c`) |
| `Protocol.dfy`, `Column.dfy` | the double-buffered reader/writer protocol as a state machine, and the column that refines it (`src/storage/storage_array.c`) |
| `Block.dfy` | all columns of a storage (`src/storage/storage_block.c`) |
| `Stores.dfy`, `Selection.dfy`, `Mirror.dfy` | what a storage holds as a value, the runs a batch is cut into, the events and the mirror fed with them |
| `Engine.dfy` | what a run of a storage needs beside its rows, which requests can be carried out, and the theorems over whole runs |
| `HashStorage.dfy` | the hash storage: ids beside columns, listener calls (`src/storage/hash_storage.c`, `storage.c`) |
| `StackAllocator.dfy` | the bump allocator (`src/core/stack_allocator.c`) |
| `Layout.dfy` | the type layout that the schema compiler repeats until it settles (`tools/ddlc/ddl_json.c`) |
| `VectorSort.dfy` | heap sort, bisection, scans and the swap of self-relative offsets (`src/storage/flatbuffers_common_reader.h`) |

How the pieces meet:

- `Hashes.Hash` carries ghost chains, one per bucket. `Valid()` says that every row lies on
  exactly one chain, its own bucket's, exactly once, and that the cells of `_hash` and
  `_next` spell out those chains. The hash function is a parameter, so everything holds for
  every hash function; the one the code uses is `Common.Hash64`.
- The removal of `n` rows relinks while the `_next` cells of the moved rows are stale. Both
  passes are functions of the table (`Removals.Removal`), and the class ends with exactly
  what they give. When that is right is decided by the chains before the call:
  `Removals.Movable` follows, for every row to be moved, the trail that its walk takes, a
  renamed row leading on to the first survivor behind the removed row whose place it took.
  `Removals.RemovalIsRightIff` proves the two equivalent, and `Hashes.Hash.RemoveFast`
  asks for nothing else. Trails are straight when moved rows that share a bucket lie on its
  chain highest row first (`Chains.TailOrdered`), as for one row always, and for any number
  of rows while chains descend, as they do after pushes, rehashes and compacting removals.
- `Columns.Column` refines `Protocols.Sharing`: every call is one `Step` of the state
  machine, array references standing for the pointers handed out. The sessions are what the
  callers hold; the code itself has only two counters and a mode.
- `HashStorages.HashStorage` holds a `Stores.Store` value: ids and columns side by side. Its
  `Insert`, `Update`, `Remove` and `EndWrite` end with exactly the value and the emissions
  that `Mirrors.Apply` and `Mirrors.Emitted` give.
- Not everything that the rows allow can be carried out: a batch removal may meet rows that
  cannot be moved, and a column may lack the slots its capacity claims. `Engines.Engine`
  carries the chains and the reservations along, `Engines.Permitted` says from them which
  request can be served, and the run theorems are about lists of permitted requests.
  `HashStorages.HashStorage.Perform` carries out such a list, with conditions on the state
  it starts from and on the list alone. For inserts, updates, removals of one id and
  rewrites that are not shorter than the capacity, ids and sizes decide
  (`Engines.PlainRunIsPermitted`).
- `Layouts.WellLaid` says how a type has to come out of a pass, in terms of the output alone:
  field by field, the widest alignment that the output before gives, the first size that
  shares no bit with it. `Layouts.LaidIff` proves it equivalent to what a pass computes, so
  that settled outputs are exactly those laid out by their own measures.
- Sums and products that the code computes in 32 or 64 bits are wrapped explicitly where
  a wrap can be reached; elsewhere the bound that excludes it is a precondition
  (`Hashes.LIMIT`, 2^27 rows; array blocks of at most 2^31 bytes).

Where the code does something other than it appears to promise, the model follows the code:

- Removing several rows at once is not right in every reachable state of the hash: five
  keys of one bucket pushed and one of them removed make a table on which the removal of
  two rows ends in the error branch (`Witnesses.SpoiledHash`, and in a storage
  `Witnesses.RowsAreNotEnough`).
- The update and remove callbacks test the batch position, which is never the
  "not found" mark, instead of the block, so that they also act on ids that are absent. An
  update stays inside the rows if and only if every id is present
  (`Selections.ActsInsideIffPresent`), a removal if and only if, besides, none is repeated
  (`Mirrors.RemovalsFitIff`).
- Inserting without column buffers gives the columns the new rows twice over
  (`HashStorages.HashStorage.InsertWithoutData`).
- Publishing a buffer swaps the blocks but not the capacities
  (`Columns.PublishMayOverstateCapacity`, and in a storage `Witnesses.CapacityIsNotEnough`).
- A column without a block hands out the null pointer, with which a buffered write of it
  cannot be ended (`Columns.Column.NullCannotPublish`).
- The padding loop of the schema compiler tests `size & align`, so that a struct size is
  often not a multiple of the alignment (`Layouts.PaddingAlignsIff`), and three floats come
  out 16 wide (`Layouts.ThreeFloats`).
- The compile loop need not end: on a struct that holds a field of its own type at offset
  4 and states neither size nor alignment no two passes agree (`Layouts.CyclicNeverSettles`).
  It ends whenever no layout takes its own measure, which a struct with stated size and
  alignment does not (`Layouts.RankedSettles`, `Layouts.StatedSettles`).

Verify with `dafny verify dfyconfig.toml` (Dafny 4.11).

## Model

| member | source | states |
|---|---|---|
| Common.HashIsBijection | src/core/common.c:4-12 | the 64-bit mix is a bijection: the explicit inverse undoes it on both sides, for every word |
| Common.UndoesXorShift | src/core/common.c:6-10 | one xor-shift of at least a third of the word width is undone by xor-ing in two more shifts, on both sides |
| Common.UndoesTimes | src/core/common.c:7-9 | a wrapping multiplication is undone by multiplying with the modular inverse |
| Common.NextPow2IsLeast | src/core/common.c:14-25 | for 1..2^63 the result is a power of two, at least the argument, and no smaller power of two is; it is 0 exactly for 0 and above 2^63 |
| Common.SmearDoubles | src/core/common.c:17-22 | each smearing line doubles the distance over which the bits are spread |
| Common.SmearFills | src/core/common.c:17-22 | smearing over the whole width fills everything below the highest set bit with ones |
| LinearScans.LinearFind | src/core/common.h:44-50 | the first position from a given one that holds the value; not found means there is none |
| LinearScans.LinearCount | src/core/common.h:52-61 | counts the occurrences |
| LinearScans.OccurrencesCountRows | src/core/common.h:52-61 | the count is the number of distinct rows holding the value |
| DynArrays.CutFastKeepsSurvivors | src/core/array.c:50-59 | both branches of the fast removal drop exactly the named rows and keep every other, as a multiset |
| DynArrays.CutFastAt | src/core/array.c:50-59 | which old row each new row comes from, in both branches |
| DynArrays.CutFastRows | src/core/array.c:42-59 | row by row: fewer than n rows behind the hole move down in order, otherwise the last n rows fill it in order, and no other row moves |
| DynArrays.GrowMakesRoom | src/core/array.c:20-25 | rounding the byte size to a power of two leaves room for the requested elements, for every element size, and still fits 32 bits |
| DynArrays.GrownFillsPow2 | src/core/array.c:20-25 | growing fills the least power of two of bytes that holds what is asked for, with as many elements as fit it, less than twice as many as asked for |
| DynArrays.DynArray.Reserve | src/core/array.c:13-18 | the capacity becomes the larger of old and wanted, the whole old block is kept, and a block is replaced only when it was too small |
| DynArrays.DynArray.Grow | src/core/array.c:20-25 | room for n more elements, contents kept |
| DynArrays.DynArray.Resize | src/core/array.c:27-32 | the count is set, surviving elements are kept |
| DynArrays.DynArray.PushBack | src/core/array.c:34-40 | the caller's elements come after the old ones |
| DynArrays.DynArray.PushOne | src/core/array.h:58-62 | the value comes after the old ones; a full array grows by room for eight |
| DynArrays.DynArray.Remove | src/core/array.c:42-48 | the rows are cut out and the later rows move down |
| DynArrays.DynArray.RemoveFast | src/core/array.c:50-59 | the in-place copies compute the rearrangement `CutFast` |
| Chains.InsertThreads | src/core/hash.c:32-37 | inserting a row puts it on its bucket's chain and keeps all rows threaded |
| Chains.UnlinkThreads | src/core/hash.c:39-42 | deleting a row takes it off its chain, keeps the order of the others and keeps them threaded |
| Relinks.RightPass | src/core/hash.c:49-51 | when every walk comes to its row from the row in front of it, the pass renames every moved row and nothing else |
| Chains.FinishMove | src/core/hash.c:49-55 | after all relinks the two block copies give a table in which every survivor lies on exactly one chain, its own bucket's, exactly once |
| Chains.KeptTailOrderedIff | src/core/hash.c:46-47 | unlinking the removed rows neither creates nor destroys the order of the moved rows |
| Chains.DestinationInvertsOrigin | src/core/hash.c:134-143 | where a surviving row goes and where a new row comes from are inverse to each other |
| Chains.SingleIsTailOrdered | src/core/hash.c:134-144 | one moved row is in order in every state |
| Chains.DescendingIsTailOrdered | src/core/hash.c:134-144 | while chains descend, removals of any length find their rows in order |
| Chains.InsertKeepsDescending | src/core/hash.c:32-37 | inserting the next row keeps chains strictly descending |
| Chains.CompactionKeepsDescending | src/core/hash.c:136-138 | the compacting branch of the removal keeps chains strictly descending |
| Chains.ChainsDetermineCells | src/core/hash.c:6-64 | keys and chains determine every cell of `_hash` and `_next` |
| Chains.MatchesAreAllRows | src/core/hash.c:73-97 | the matches along the key's chain are exactly the rows holding the key, each once, as many as the linear count finds |
| Chains.FirstMatchDecides | src/core/hash.c:73-84 | the first match is missing exactly when the key is absent, and is the highest row holding it while chains descend |
| Hashes.Hash.SetPrev | src/core/hash.c:6-30 | when the walk down the chain reaches the row, exactly the cell in front of it is redirected; the error branch is not met |
| Hashes.Hash.KeyDelete | src/core/hash.c:39-42 | the cell in front of the row receives what the row's own cell holds |
| Hashes.Hash.DeleteRange | src/core/hash.c:46-47 | the first pass ends well on every well-formed table, is the pass function, and takes exactly the removed rows off their chains |
| Hashes.Hash.RelinkRange | src/core/hash.c:49-51 | the second pass leaves the table that the pass function gives whenever that ends well |
| Hashes.Hash.KeyMoveN | src/core/hash.c:44-55 | both passes and the copies leave the table that the removal function gives |
| Hashes.Hash.RemoveFast | src/core/hash.c:134-144 | for one row, and for rows whose trails arrive: well-formed to well-formed, keys rearranged by `CutFast`, chains renamed accordingly, and the table is the one that the removal function gives |
| Hashes.Hash.KeyInsert | src/core/hash.c:32-37 | the row is threaded at the front of its bucket's chain, all other chains stay |
| Hashes.Hash.Rehash | src/core/hash.c:57-64 | all rows are threaded over the new buckets, in descending order, whatever the old chains were |
| Hashes.Hash.Reserve | src/core/hash.c:99-108 | keys kept, capacity as asked, the buckets twice what is asked for exactly when eleven sixteenths of them were fewer; which keys, chains and capacity result, exactly |
| Hashes.Hash.PushBack | src/core/hash.c:110-118 | the key is appended, all rows threaded, descending order kept; a full hash grows to the least power of two with room for eight more |
| Hashes.Hash.PushBackN | src/core/hash.c:120-132 | the keys are appended, all rows threaded, descending order kept; a hash too small grows to the least power of two that holds them all |
| Hashes.Hash.Clear | src/core/hash.c:146-151 | empty and well formed, capacity kept |
| Hashes.Hash.Reset | src/core/hash.c:153-158 | empty and well formed, nothing reserved |
| Hashes.Hash.Find | src/core/hash.c:73-84 | a row holding the key, or not found exactly when there is none; the highest one while chains descend |
| Hashes.Hash.FindNext | src/core/hash.c:86-97 | the next match on the same chain |
| Hashes.Hash.FindAll | src/core/hash.c:73-97 | find, then find-next to the end: exactly the rows holding the key, each once, as many as the linear count |
| Relinks.CleanIffTailOrdered | src/core/hash.c:44-51 | the relink pass reads no stale cell if and only if the moved rows of each bucket are in order |
| Relinks.TailOrderedArrives | src/core/hash.c:44-51 | the order suffices for every walk to come from the true predecessor |
| Relinks.RightIffEveryWalkArrives | src/core/hash.c:49-55 | for every table between the passes: second pass and copies give the right table if and only if every walk comes to its row from the row in front of it |
| Removals.RemovalIsRightIff | src/core/hash.c:44-55 | for every well-formed table: the removal ends without error in the right table if and only if, on the chains before the call, the trail of every row to be moved arrives |
| Removals.DeletePassRight | src/core/hash.c:46-47 | the first pass never fails; each removed row's cell then holds the first row behind it outside the rows deleted before it |
| Removals.CleanRemovalIff | src/core/hash.c:44-51 | the removal reads no stale cell if and only if, before the call, the rows to be moved lie on their chains highest row first |
| Removals.TailOrderedIsMovable | src/core/hash.c:44-51 | that order suffices for the removal to be right |
| Removals.OneRowIsMovable | src/core/hash.c:134-144 | the removal of one row is right in every state |
| Removals.TrailIsShort | src/core/hash.c:12-22 | a trail that arrives at all does so within as many hops as there are rows, so that following it decides |
| Witnesses.SpoiledHash | src/core/hash.c:18-22 | five keys of one bucket pushed and row 2 removed: out of order, trails do not arrive, and removing two rows ends in the error branch |
| Witnesses.LuckyHash | src/core/hash.c:44-51 | six keys of one bucket pushed and two removed: out of order, and yet removing two rows is right |
| Witnesses.RowsAreNotEnough | src/storage/hash_storage.c:167-174 | in a storage with five distinct ids of one bucket, one of them removed, two present ids side by side cannot be removed as one batch, but one after the other they can |
| Witnesses.CapacityIsNotEnough | src/storage/storage_array.c:128-130 | in a storage with four rows, cut to two and rewritten through a buffer, the rows admit one more, but the column claims four slots and has two |
| Protocols.StepKeepsInv | src/storage/storage_array.c:58-140 | every call keeps: counters equal open sessions, readers see their snapshot, a direct writer is alone, a buffered writer's buffer has no reader |
| Protocols.RunKeepsInv | src/storage/storage_array.c:58-140 | the same over every run of calls |
| Protocols.BeginReadOpens | src/storage/storage_array.c:58-65 | under any mode but a direct write exactly one session opens, on the main buffer as it then is, counted there; nothing else changes |
| Protocols.EndReadCloses | src/storage/storage_array.c:67-84 | for one of the column's two buffers exactly one session on it closes and exactly its counter falls by one; any other pointer changes nothing |
| Protocols.EndReadUndoesBeginRead | src/storage/storage_array.c:58-84 | reading and ending the read leaves counters, sessions and admission as they were |
| Protocols.BeginWriteOpens | src/storage/storage_array.c:86-112 | an admitted write sets the mode and keeps the main buffer, counters and sessions; when the back buffer is replaced and when not; a refused one changes nothing |
| Protocols.EndWriteCloses | src/storage/storage_array.c:114-140 | the holder's end ends the mode and closes no session; a buffered one exchanges buffers and counters, a direct one nothing |
| Protocols.SessionsBalance | src/storage/storage_array.c:58-140 | over every run the two counters together are the reads begun less the reads ended |
| Protocols.ReaderCanEnd | src/storage/storage_array.c:67-84 | whoever holds an open session can end it, also after a publish |
| Protocols.SafeOverEveryRun | src/storage/storage_array.c:58-140 | from the start, in every reachable state, both counters are exact and no open reader's buffer is being written or has changed |
| Protocols.SnapshotIsolation | src/storage/storage_array.c:58-140 | while a session stays open its buffer keeps its contents, also across a publish |
| Protocols.AdmissionIsExact | src/storage/storage_array.c:14-17 | the counters admit a direct writer exactly when no session is open at all, and a buffered one exactly when there is no writer and no reader on the back buffer |
| Protocols.PublishSwaps | src/storage/storage_array.c:123-137 | a publish makes the writer's buffer the column, and every open session then counts on the back buffer |
| Columns.Column.BeginRead | src/storage/storage_array.c:58-65 | is the protocol step; unless under a direct writer the main counter rises by one and one session on the main block, with its contents, is added; null exactly under a direct writer or for a column without a block |
| Columns.Column.EndRead | src/storage/storage_array.c:67-84 | is the protocol step on the block that the pointer is taken for: its counter falls by one and one session on it is gone; not found, and nothing changed, exactly for a pointer that is neither buffer |
| Columns.Column.BeginWrite | src/storage/storage_array.c:86-112 | is the protocol step; when the mode is set, which buffer is handed out, how the back buffer is then reserved, and null when not admitted or without a block |
| Columns.Column.EndWrite | src/storage/storage_array.c:114-140 | is the protocol step; the mode ends, sessions stay; a publish swaps blocks and counters and keeps the capacity, which is then true exactly when both blocks had the same size |
| Columns.Column.NullCannotPublish | src/storage/storage_array.c:116-125 | the null pointer of a column without a block is taken for the main buffer, whose end of write needs a direct writer |
| Columns.Column.Fill | src/storage/storage_array.c:86-112 | stores through the pointer of an open writer leave the given contents in its buffer and change nothing else |
| Columns.PublishMayOverstateCapacity | src/storage/storage_array.c:128-130 | a run after which a column claims four slots and has two, so that a third row would be written behind its block |
| Columns.Column.PushBack | src/storage/storage_array.c:26-31 | rows appended, protocol invariant kept; which reservation results, exactly |
| Columns.Column.Update | src/storage/storage_array.c:33-41 | exactly the given rows are overwritten from the given offset |
| Columns.Column.RemoveFast | src/storage/storage_array.c:43-48 | the same rearrangement as the array and the ids |
| Blocks.Block.CanModify | src/storage/storage_block.c:20-28 | true exactly when no column has a session open |
| Blocks.Block.PushBack | src/storage/storage_block.c:38-49 | every column grows by n rows, those with data by the caller's values, and keeps its old rows; which reservations result, exactly |
| Blocks.Block.Resize | src/storage/storage_block.c:30-36 | every column has the given number of rows and keeps what still fits |
| Blocks.Block.Update | src/storage/storage_block.c:51-63 | exactly the columns with data change, in exactly the given rows; the mask is the one that names them |
| Blocks.Block.RemoveFast | src/storage/storage_block.c:65-71 | every column undergoes the same rearrangement |
| Blocks.Block.EndRead | src/storage/storage_block.c:89-96 | exactly the owner of the pointer closes one session on it and lowers that buffer's counter, its index is returned, the reads of no other column change |
| Blocks.Block.Draft | src/storage/storage_block.c:98-103 | begin_write on a column and the stores of its holder: the contents are complete behind the pointer, no other column changes |
| Blocks.Block.EndWrite | src/storage/storage_block.c:105-112 | exactly the owner of the pointer ends its write, its index is returned, no other column changes |
| Blocks.BlockFor | src/storage/storage_block.c:4-18 | one empty column for every element size, sharing nothing |
| Stores.InsertRefines | src/storage/hash_storage.c:104-116 | on the map from ids to tuples: the new entries are added, the old ones unchanged |
| Stores.RemoveRefines | src/storage/hash_storage.c:154-165 | on the map: exactly the removed ids go, every other id keeps its tuple although its row moved |
| Stores.UpdateRefines | src/storage/hash_storage.c:125-134 | on the map: one id's tuple changes, in exactly the columns with data |
| Stores.CutRowOrigin | src/storage/hash_storage.c:161-163 | ids and all columns undergo one rearrangement, so rows stay together |
| Selections.NextRunDescribes | src/storage/hash_storage.c:80-101 | a callback is one absent id, or the longest stretch of the batch that sits in consecutive rows |
| Selections.RunsTileTheBatch | src/storage/hash_storage.c:74-102 | the callbacks cover the batch once, without gap or overlap |
| Selections.ActsInsideIffPresent | src/storage/hash_storage.c:125-146 | the update callback acts on every run, and stays inside the rows if and only if every id is present |
| Selections.RunGivesAddresses | src/storage/storage.c:25-45 | each id of a run gets the address that looking it up alone gives |
| Selections.BatchIsFold | src/storage/hash_storage.c:125-146 | a batch update equals its one-id updates from left to right, repeated ids included |
| Selections.FoldRefines | src/storage/hash_storage.c:125-146 | the one-id updates are map updates |
| Selections.LastValueWins | src/storage/hash_storage.c:125-146 | the last occurrence of an id decides its columns with data; ids outside the batch keep their tuple |
| Selections.RemoveAllRefines | src/storage/hash_storage.c:154-174 | on the rows: the removal run by run of distinct present ids removes exactly their entries |
| Selections.StillPresent | src/storage/hash_storage.c:154-174 | the ids not yet removed survive each run's removal |
| Mirrors.MaskNamesWritten | src/storage/storage_block.c:53-62 | bit c of the mask is set exactly when column c came with data |
| Mirrors.InsertCarries | src/storage/hash_storage.c:109-115 | the insert event brings a mirror level |
| Mirrors.UpdateCarries | src/storage/hash_storage.c:131-132 | the update events bring a mirror level, run by run |
| Mirrors.RemoveCarries | src/storage/hash_storage.c:161-163 | the remove events bring a mirror level, run by run |
| Mirrors.PublishCarries | src/storage/hash_storage.c:51-58 | the event of a publish brings a mirror level whatever it held for that column |
| Mirrors.InsertAnnounces | src/storage/hash_storage.c:115 | an insert emits one event, for exactly the new rows, when they are in |
| Mirrors.BatchAnnounces | src/storage/hash_storage.c:125-165 | a batch update or removal emits one event for each of its runs, with its rows: an update after the run is written, naming exactly the columns with data; a removal before the run goes |
| Mirrors.PublishAnnounces | src/storage/hash_storage.c:51-58 | a publish emits one update event for all rows that names its column and no other |
| Mirrors.RemovalsFitIff | src/storage/hash_storage.c:154-165 | the remove callback, each run looked up in what the earlier ones left, stays inside the rows if and only if every id is present and none is repeated |
| Engines.RequestIsRight | src/storage/hash_storage.c:51-174 | what answers a request that callers may make is allowed on the rows, and hash and columns go on describing them |
| Engines.OneIdIsRemovable | src/storage/hash_storage.c:167-174 | one id can be removed from any state |
| Engines.OneRunIsRemovable | src/storage/hash_storage.c:167-174 | a batch that is one run of rows can be removed while chains descend |
| Engines.PlainRunIsPermitted | src/storage/hash_storage.c:104-174 | starting with full columns, lists of inserts, updates, one-id removals and rewrites not shorter than the capacity can be carried out whenever ids and sizes are right |
| Engines.MirrorFollowsEveryRun | src/storage/hash_storage.c:51-174 | over every list of permitted requests a mirror fed with all events ends up equal to the storage |
| Engines.EveryRunRefinesMap | src/storage/hash_storage.c:51-174 | over every list of permitted requests the storage refines the map from ids to tuples |
| HashStorages.HashStorage.FindRun | src/storage/hash_storage.c:80-99 | look-up and extension loop compute the next run |
| HashStorages.HashStorage.SelectBuf | src/storage/storage.c:25-50 | every present id gets the address of its row, every absent one the "not found" mark twice; cells behind the batch untouched |
| HashStorages.HashStorage.Insert | src/storage/hash_storage.c:104-116 | the storage holds the old rows and the new ones; exactly the insert event reaches the listener; hash and reservations are the next ones |
| HashStorages.HashStorage.InsertWithoutData | src/storage/hash_storage.c:109-115 | the branch for a null table: the columns get the new rows twice over, so columns and ids are level if and only if nothing is inserted |
| HashStorages.HashStorage.Update | src/storage/hash_storage.c:125-146 | the storage holds the batch update of its runs; exactly their events reach the listener |
| HashStorages.HashStorage.Remove | src/storage/hash_storage.c:154-174 | the storage holds the removal of its runs; exactly their events reach the listener; the hash is the one that the runs leave |
| HashStorages.HashStorage.EndWrite | src/storage/hash_storage.c:51-58 | what the writer left behind its pointer becomes the column, announced under its own bit for all rows |
| HashStorages.HashStorage.Rewrite | src/storage/hash_storage.c:43-58 | a whole write, direct or buffered: the column holds the contents, one event announces it, and the reservations are the next ones |
| HashStorages.HashStorage.Perform | src/storage/hash_storage.c:43-174 | a list of requests permitted from the start is carried out: rows, events, hash and reservations end as the run of operations gives |
| HashStorages.StorageFor | src/storage/hash_storage.c:204-209 | a new storage is empty, with full columns and no session open |
| HashStorages.ListenerFollowsEveryRun | src/storage/storage.c:4-23 | what a listener with every hook hears over a permitted run takes a mirror from the first rows to the last |
| HashStorages.HashStorage.EmitInsert | src/storage/storage.c:4-9 | the event reaches a listener that has the hook |
| HashStorages.HashStorage.EmitRemove | src/storage/storage.c:11-16 | the event reaches a listener that has the hook |
| HashStorages.HashStorage.EmitUpdate | src/storage/storage.c:18-23 | the event reaches a listener that has the hook |
| HashStorages.HeardOne | src/storage/storage.c:4-23 | an event is heard exactly when there is a listener that has the hook for its kind |
| StackAllocators.GuardIsRight | src/core/stack_allocator.c:10-33 | both guards, computed in 64 bits, decide rightly if and only if the request does not wrap into the arena |
| StackAllocators.StepKeepsInv | src/core/stack_allocator.c:5-76 | every call keeps live blocks inside the used part, disjoint, and the last block ending where free space begins |
| StackAllocators.AllocateMeans | src/core/stack_allocator.c:5-19 | succeeds exactly when it fits; a new block appears at the end of the used part and counts as the last, all others keep their bytes |
| StackAllocators.ReallocateMeans | src/core/stack_allocator.c:21-44 | without a block takes a new one; in place exactly for the last block; the first bytes up to the smaller size are kept in place and when moved; all other blocks keep their bytes; succeeds exactly when it fits, refusal changes nothing |
| StackAllocators.DeallocateMeans | src/core/stack_allocator.c:46-59 | the block goes, others stay; space comes back, and no block counts as the last, exactly for the last block; null does nothing |
| StackAllocators.ResetMeans | src/core/stack_allocator.c:71-76 | no block is held, and everything that fits the arena can be taken from its start |
| StackAllocators.StoreMeans | src/core/stack_allocator.c:14-18 | a caller's write into its block reaches no other block |
| StackAllocators.DeallocateUndoesAllocate | src/core/stack_allocator.c:5-59 | giving back the block just taken restores the arena, but no block counts as last any more |
| StackAllocators.EmptyBlockSharesAddress | src/core/stack_allocator.c:14-17 | why sizes must not be zero: an empty block and the next block have one address |
| StackAllocators.SafeOverEveryRun | src/core/stack_allocator.c:5-76 | in every reachable state any two live blocks are disjoint and inside the used part |
| StackAllocators.UnnamedBlockIsUntouched | src/core/stack_allocator.c:5-76 | over every run, a block no operation names keeps its address, size and bytes |
| StackAllocators.StackAllocator.Allocate | src/core/stack_allocator.c:5-19 | implements the modelled step, refused requests included |
| StackAllocators.StackAllocator.Reallocate | src/core/stack_allocator.c:21-44 | implements the modelled step in all its branches: nothing passed, last block in place, other block moved |
| StackAllocators.StackAllocator.MoveBlock | src/core/stack_allocator.c:40-42 | copying `size` bytes from the old address stays inside the arena and acts as through a buffer |
| StackAllocators.StackAllocator.Deallocate | src/core/stack_allocator.c:46-59 | implements the modelled step; only the last block gives its space back |
| StackAllocators.StackAllocator.Reset | src/core/stack_allocator.c:71-76 | back to the initial state |
| Layouts.PaddedIsLeast | tools/ddlc/ddl_json.c:89-91 | the padding loop stops at the first size that shares no bit with the alignment |
| Layouts.PaddingAlignsIff | tools/ddlc/ddl_json.c:89-91 | for a power-of-two alignment the result is aligned if and only if the size was, or had the alignment's bit set |
| Layouts.AndIffShared | tools/ddlc/ddl_json.c:90 | the test of the padding loop is 0 exactly when size and alignment share no bit |
| Layouts.NumericAlignIsLeast | tools/ddlc/ddl_json.c:43-46 | the default alignment of a number is the least power of two that holds it, up to 16 |
| Layouts.WidestIsMax | tools/ddlc/ddl_json.c:62-83 | the running alignment is the largest among the fields, 0 without fields |
| Layouts.FieldsAreAdjacent | tools/ddlc/ddl_json.c:66-86 | fields without offsets of their own lie side by side, without gap or overlap, from 0 to the sum of the sizes |
| Layouts.Pad | tools/ddlc/ddl_json.c:89-91 | the loop ends with the first fitting size, less than one turn of the low byte away |
| Layouts.ProcessStruct | tools/ddlc/ddl_json.c:56-103 | said of the struct that comes out: each field at its stated offset or behind the one before, the widest alignment that the output before gives for the fields' types, the first size from the end on that shares no bit with it, what the schema states as stated |
| Layouts.ProcessTypes | tools/ddlc/ddl_json.c:136-171 | a pass over all types, each as it has to come out (numbers, enums and references too); given up exactly when some number has no size |
| Layouts.LaidIff | tools/ddlc/ddl_json.c:31-134 | a type comes out of a pass if and only if it is laid as the output before demands, by a definition of its own |
| Layouts.ReproducedIffLaidOut | tools/ddlc/ddl_json.c:247-271 | an output is reproduced by a pass if and only if every type in it is laid by the output's own measures |
| Layouts.LayoutIffLaidOut | tools/ddlc/ddl_json.c:247-271 | when no layout takes its own measure, the direct layout is laid by its own measures and nothing else is |
| Layouts.ThreeFloats | sample/sample.ddl:10-31 | a struct of three floats comes out with offsets 0, 4 and 8, aligned to 4 and 16 wide |
| Layouts.ReadsDecide | tools/ddlc/ddl_json.c:56-103 | a struct's layout depends only on the measures it reads: none when size and alignment are stated and every later offset too |
| Layouts.UniqueFixpoint | tools/ddlc/ddl_json.c:247-271 | when no layout takes its own measure, an output is reproduced by a pass if and only if it is the direct recursive layout |
| Layouts.PassesGetRight | tools/ddlc/ddl_json.c:257-270 | after n passes every type nested less than n deep is right |
| Layouts.Settles | tools/ddlc/ddl_json.c:257-270 | the output has settled after depth + 1 passes |
| Layouts.Compile | tools/ddlc/ddl_json.c:247-271 | if passes ever agree, the loop over two buffers stops with the first repeated output, in which every type is laid by the output's own measures, and which is the direct layout when no layout takes its own measure |
| Layouts.RankedSettles | tools/ddlc/ddl_json.c:257-270 | when no layout takes its own measure and layouts are nested at most d deep, passes agree from d + 1 on |
| Layouts.SettledStays | tools/ddlc/ddl_json.c:257-270 | once two passes agree, all later ones do |
| Layouts.StatedSettles | tools/ddlc/ddl_json.c:247-271 | a struct that contains itself but states size and alignment settles |
| Layouts.CyclicNeverSettles | tools/ddlc/ddl_json.c:257-270 | on the schema of one struct with a field of its own type at offset 4 no two passes in a row agree |
| Vectors.RebasedIff | src/storage/flatbuffers_common_reader.h:319-325 | a moved offset keeps its target if and only if the target lies 0 to 2^32 - 1 bytes behind the new cell |
| Vectors.Rebase | src/storage/flatbuffers_common_reader.h:319-325 | the two wrapping corrections exchange the targets |
| Vectors.SiftStep | src/storage/flatbuffers_common_reader.h:283-296 | one turn moves the hole to the picked child and keeps the heap around it |
| Vectors.RootIsMax | src/storage/flatbuffers_common_reader.h:306-308 | the root of a heap in this numbering is a maximum |
| Vectors.TailGrows | src/storage/flatbuffers_common_reader.h:306-308 | swapping the root behind the heap extends the sorted tail |
| Vectors.Vector.Swap | src/storage/flatbuffers_common_reader.h:318-325 | exactly the two targets are exchanged, for scalars and for offsets |
| Vectors.Vector.SiftDown | src/storage/flatbuffers_common_reader.h:279-301 | makes a heap from the node down, permutes only the front, ends |
| Vectors.Vector.HeapSort | src/storage/flatbuffers_common_reader.h:302-308 | a sorted permutation of the targets, for every vector and every total preorder |
| Vectors.Vector.FindByField | src/storage/flatbuffers_common_reader.h:137-156 | on a vector ordered by the key, the lowest match, or none exactly when there is none |
| Vectors.Vector.ScanByField | src/storage/flatbuffers_common_reader.h:185-194 | the lowest match, or none exactly when there is none, on any vector |
| Vectors.Vector.RscanByField | src/storage/flatbuffers_common_reader.h:195-204 | the highest match, or none exactly when there is none, on any vector |
| Vectors.LowestMatchIsUnique | src/storage/flatbuffers_common_reader.h:137-194 | bisection and scan give the same answer |
| Vectors.Vector.SortThenFind | src/storage/flatbuffers_common_reader.h:137-308 | sorting and bisecting decides membership in the original vector |
| Vectors.Vector.SortThenFindKey | src/storage/flatbuffers_common_reader.h:137-308 | the same for a key that the sorting order itself compares |

## Left out

- Hashes.Hash.RemoveFast: several rows at once only when their trails arrive; by `Removals.RemovalIsRightIff` the code is not right otherwise, walks longer than any given number of steps counting as endless.
- Hashes.Hash.PushBackN: up to 2^27 rows, below which no 32-bit product of the hash and its arrays wraps.
- Blocks.Block.EndWrite: the pointer is not null; a null pointer would be taken by the first column without a block (`Columns.Column.Named`). The same holds of `Blocks.Block.EndRead` and `HashStorages.HashStorage.EndWrite`.
- Columns.Column.PushBack: only when the rows fit the block or exceed the capacity; a buffered publish between blocks of different sizes can leave a column where neither holds.
- Blocks.Block.Update: the mask is a natural number; it fits the 32 bits of the code while there are at most 32 columns.
- HashStorages.HashStorage.Insert: with a table of column buffers; the branch for a null table is `InsertWithoutData`, after which the storage is no longer level, so that runs do not contain it. Ids must be fresh and distinct, as nothing in the code looks for them.
- HashStorages.HashStorage.Update: ids must be present, because the callback acts on absent ids too and then writes outside the columns.
- HashStorages.HashStorage.Remove: ids must be present and distinct, and the rows of each run movable.
- HashStorages.HashStorage.Perform: every request starts with no session open, and a write is begun, filled and ended in one; sessions that overlap are the subject of `Protocols`.
- HashStorages.HashStorage.SelectBuf: the selection's callback is inlined into each of its three users instead of being passed as a function pointer.
- StackAllocators.StackAllocator.Allocate: sizes are not zero and do not wrap past 2^64 into the arena; alignment is not modelled, as the code does none.
- Layouts.Compile: only when the passes settle; the loop does not end otherwise. That no layout takes its own measure is sufficient for that and not necessary. The schema is a tree of values and outputs are compared as values instead of as bytes; layouts and storages, which a pass copies unchanged, are not part of this model; all field types are declared.
- Vectors.Vector.HeapSort: the comparison is a total preorder, so floating-point vectors holding NaN are not covered; offset vectors have their targets behind the vector, as builders lay them out.
- Vectors.Vector.ScanByField: over the whole vector; the variants with explicit bounds are not part of this model.
- Null results of the system allocator: reallocation always succeeds and is a fresh block with the old one copied (`src/core/allocator.c`).
- The calls that only hand a request on: `begin_read`, `begin_write`, `block_size`, `id_data` and `done` of block and storage.
- `src/core/string.c`: nothing beyond what the arrays give.
- `src/storage/ddl_registry.c`, `ddl_utils.c`: global lists with a linear search; of these only the search by name is modelled, as `Layouts.ByName`.
- `tools/ddlc/ddl_c.c`, `ddlc.c`, `src/core/file.c`, `src/core/log.c`: printing and files; a fatal message is an error result.
- `src/storage/ddl_json_parser.h`, `ddl_builder.h`, `ddl_verifier.h`, `flatbuffers_common_builder.h`: generated code over a runtime that is not part of this model.
- `sample/`: foreign-language bindings and demonstrations.
