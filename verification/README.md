# A verified model of the cache server

This project models the parts of the poor-man-s-cache server and client that carry state, and proves what
they keep over every run: the hash store with its entry pool, the prime generator that feeds its growth, the
framing of custom and RESP requests, the RESP parsers and encoders, the arena small replies live in, the
transactions of a connection, the partial-write send loop and the pipelining client. `dafny verify
dfyconfig.toml` checks all of it.

## How it is built

Code that updates state in place is a class or a method with loops over the same fields, arrays and indices.
Each such method is proved equal to a function on values, and what the source promises is proved about those
functions, over all inputs and all runs. A C++ `char` is a Dafny `char`; a C string is text without NUL.
Sockets are scripts: a list of what each `recv` or `send` does, so a theorem about all scripts is one about
every way the network can cut a stream.

- The store: `EntryPool`, `StoreModel` (the operations as functions), `StoreLookup`, `StoreResize`,
  `StoreRuns`, `StoreTidy`, `StoreLoss`, `StoreRefinement`, `StoreDeletes`, `StoreCapacity`, `StoreGrowth`,
  `StoreMemory` (with the values' buffers), `StoreWitness`, `StoreResizeWitness`, `KeyValueStore` (the class),
  `Primegen`. The hash is any function from keys to 64-bit values. Compression is any codec whose decompression
  undoes its compression.
- Requests: `Decimal`, `RespRequest`, `RespGrammar`, `RespCommand`, `Cuts`, `Streams`, `LoneSeparators`, `Framing`,
  `FramingSeparators`, `CustomProtocol`, `RequestViews`, `Connection`.
- Replies: `RespReply`, `RespEncoders`, `InlineArena`, `SendLoop`, `WireBytes`; `Rounds`, `Overwrites` and
  `RoundsWitness`, which keep track of the buffers custom responses point at until they are sent; `RoundSends`,
  which keeps track of what failed sends leave on the wire.
- Transactions: `Transactions`, `TransactionReplies`, `RequestProcessing`, over any store that can look up, insert
  and remove; `ServerTransactions`, over the server's shards.
- The shards: `Sharding`, each of them on its own and all of them as one map.
- The client: `ClientModel`, `ClientReceives`, `ClientRuns`, `CacheClient`; and `EndToEnd`, client and server
  together.

## What the code does not do

Some properties one would expect are false of the code. Lemmas show where they fail and prove the exact
condition under which they hold.

- A custom GET whose key is set or deleted later in the same round is answered from freed memory:
  `GetAnswersLaterSet`. `SentOwnTextIff` says exactly when a response carries its own text,
  `LostExactlyWhenOverwritten` says it on the commands themselves when nothing is deleted, and
  `UndisturbedIsFaithful` gives the condition a sender can keep to.
- A failed send, such as one of more buffers than a call takes, leaves the connection open, and the next round's
  responses go out behind whatever part of the failed round did: `FailedSendShiftsReplies` hands a reply to the
  wrong request. `InPlaceIff` says exactly when every byte sent stands where the whole stream has it, and
  `GapMayNotShow` why the bytes alone cannot tell.
- EXEC is not all or nothing when a shard's prime generator throws: `ExecOnShards` says what is left.
- A value with a separator in it shifts every later reply of a custom client: `SeparatorShiftsReplies`.
  `SplitsBackIff` and `SeparableIff` say exactly when replies can be told apart.
- A `get` after `del` is not always null: `DeletedKeyReturns` deletes a key and reads an older value back.
  `DelThenGet` says when it is null, and `RunsWithDeletesRefineMap` which runs with deletes are those of a map.
- A resize that loses nothing can still bring an older value back: `OlderValueReturns`. `ResizeLookup` says
  exactly when a key reads as before, and `ResizePreservesLookups` that it does with one entry per key.
- A separator that arrives before a message split over two passes costs the next message its first byte, or
  makes the erasure run past the end of the buffer: `SeparatorCountedTwice`, `SeparatorOverruns`.
  `LoneSeparatorsExactIff` says exactly which streams and chunks survive, refused cuts included.
- A request cut after `*`, `$` or a header's CR closes the connection instead of waiting:
  `SessionFramesMessages` makes that an equivalence. Whole requests of the same pass go with it:
  `ClosedDropsPass`.
- A client cannot tell a stored value that reads like an error, or `(nil)`, from an error or a missing key:
  `ToldWhatHappened` is an equivalence too. RESP readers have no such values: `RespTellsWhatHappened`.
- Only the first sieve segment is sieved, although the generator is described as producing primes:
  `LaterSegmentsUnsieved`.

## Model

| member | source | states |
|---|---|---|
| `EntryPool.Fresh` | src/kvs/kvs.hpp:63-71 | a new pool of at least two entries is sound: its free list is a chain of distinct, non-zero, in-range indices with null keys, handed out from the lowest up |
| `EntryPool.Allocated` | src/kvs/kvs.hpp:77-85 | taking an entry keeps the pool sound, and the index taken is no longer free |
| `EntryPool.Deallocated` | src/kvs/kvs.hpp:87-98 | freeing a live entry keeps the pool sound and makes it the next one taken |
| `EntryPool.Filled` | src/kvs/kvs.cpp:176-201 | filling an entry that is not free keeps the pool sound |
| `EntryPool.Expanded` | src/kvs/kvs.hpp:104-116 | growing keeps every cell and the pool sound, although the old free list is dropped: the new indices are handed out from the lowest up |
| `EntryPool.ChainFrom` | src/kvs/kvs.hpp:104-112 | the loop links exactly the blank entries from an index on into one chain that ends at 0, and leaves the entries before it as they were |
| `EntryPool.MemoryPool.constructor` | src/kvs/kvs.hpp:63-71 | the linked array it builds is the fresh pool |
| `EntryPool.MemoryPool.Allocate` | src/kvs/kvs.hpp:77-85 | pops the head of the chain; with an empty chain it expands first, or throws and changes nothing when its primes have run out |
| `EntryPool.MemoryPool.Deallocate` | src/kvs/kvs.hpp:87-98 | pushes the index on the chain and clears the entry; the chain stays acyclic |
| `EntryPool.MemoryPool.ExpandPool` | src/kvs/kvs.hpp:104-116 | copies the entries and chains exactly the new indices |
| `StoreModel.Initial` | src/kvs/kvs.cpp:5-23 | a new store satisfies the store invariant: capacity equals table size, at most 70% entries, a free entry for each one still to come |
| `StoreModel.ProbeUpToAt` | src/kvs/kvs.cpp:59-61 | the m-th slot probed is slot m mod 4 of the bucket at attempt m / 4, with the 64-bit wrap of the index sum |
| `StoreModel.ProbesFiveBuckets` | src/kvs/kvs.cpp:59-61 | slots 4a to 4a+3 of every probe path are the four slots of the bucket 0, 1, 4, 9 or 16 from the hash for a = 0 to 4, the sum taken modulo 2^64 and then modulo the table size |
| `StoreModel.EntryFor` | src/kvs/kvs.cpp:208-230 | the entry found is 0 or a live entry with the key |
| `StoreModel.DelSpec` | src/kvs/kvs.cpp:243-273 | `del` keeps the store invariant with stale and aliased slots about |
| `StoreModel.InsertSpec` | src/kvs/kvs.cpp:146-201 | a set below the threshold keeps the store invariant, so the pool cannot run dry |
| `StoreModel.MigratedInPool` | src/kvs/kvs.cpp:75-84 | every slot of the new table refers into the pool |
| `StoreModel.MigrateInGrownPool` | src/kvs/kvs.cpp:71-84 | expanding the pool before migrating does not change where entries go |
| `StoreModel.ResizeSpec` | src/kvs/kvs.cpp:63-97 | a resize re-establishes the store invariant and leaves room below the threshold |
| `StoreModel.SetSpec` | src/kvs/kvs.cpp:141-174 | a set keeps the store invariant, resize or not, unless the generator throws; then only the resizing flag has changed |
| `StoreLookup.StoredValueReadsBack` | src/kvs/kvs.cpp:176-201 | a value stored compressed or not reads back as itself |
| `StoreLookup.InsertedEntry` | src/kvs/kvs.cpp:150-201 | after a set that found room, the entry a probe stops at is the one it filled |
| `StoreLookup.InsertedIsFound` | src/kvs/kvs.cpp:150-230 | a set that found room is what the next get of the key returns, stale slots or not |
| `StoreLookup.InsertLeavesOthers` | src/kvs/kvs.cpp:150-201 | a set changes no other key's get, though it may reuse an entry another key's slots still point at |
| `StoreLookup.DelLeavesOthers` | src/kvs/kvs.cpp:243-267 | a delete changes no other key's get |
| `StoreLookup.DelExposesNext` | src/kvs/kvs.cpp:243-267 | `del` answers true exactly when a probed slot holds the key, clears exactly the first such entry, and exposes the first different one |
| `StoreLookup.DelThenGet` | src/kvs/kvs.cpp:208-273 | the get after a delete is null exactly when no probed slot held the key through a second entry |
| `StoreResize.AllMigratedSeated` | src/kvs/kvs.cpp:75-123 | after migration every used slot holds a live entry on its own key's path with no gap before it, entries lost or not |
| `StoreResize.MigratedEntry` | src/kvs/kvs.cpp:75-123 | with nothing lost, a lookup in the new table finds the key's first entry in old table order |
| `StoreResize.InsertKeepsReachable` | src/kvs/kvs.cpp:150-173 | a set keeps every live entry that any slot refers to, stale or not, findable on its own key's path |
| `StoreResize.DelKeepsReachable` | src/kvs/kvs.cpp:243-267 | so does a delete, although it leaves the slot pointing at the freed entry |
| `StoreResize.ResizedIsSeated` | src/kvs/kvs.cpp:63-97 | a resize leaves only live entries in the table, each on its own path |
| `StoreResize.ResizedLookup` | src/kvs/kvs.cpp:63-123 | after a resize that lost nothing, get finds the key's first entry in old table order |
| `StoreResize.UniqueEntryFound` | src/kvs/kvs.cpp:208-230 | with one entry per key, the probe and a scan of the whole table find the same entry |
| `StoreRuns.SetWithoutResize` | src/kvs/kvs.cpp:141-174 | in every reachable state: a set that answers true makes get its value and changes no other key's get; one that answers false changes none |
| `StoreRuns.DelLookup` | src/kvs/kvs.cpp:237-273 | in every reachable state: `del` answers true exactly when get found the key, changes no other key's get, and leaves its own key null exactly when no second entry for it was on the path |
| `StoreRuns.StoredForm` | src/kvs/kvs.cpp:176-201 | every set that succeeds, resize or not, leaves the value compressed exactly when compression is on, value and NUL take 30 bytes or more, and the compressor succeeds; otherwise as it is |
| `StoreRuns.ResizeLookup` | src/kvs/kvs.cpp:63-123 | a resize that lost nothing keeps a key's get if and only if its probed entry and its first entry in table order hold the same value |
| `StoreRuns.ResizePreservesLookups` | src/kvs/kvs.cpp:63-123 | with one entry per key and nothing lost, a resize changes no get |
| `StoreRuns.SetKeepsGood` | src/kvs/kvs.cpp:141-174 | a set, with or without resize, keeps what every reachable state satisfies |
| `StoreRuns.RunKeepsGood` | src/kvs/kvs.cpp:141-273 | every run of set, get and del keeps it |
| `StoreRuns.EveryRunIsGood` | src/kvs/kvs.cpp:63-273 | after every run from a fresh store: capacity equals table size, entries at most 70% of it, free list sound, so the pool's fallback expansion is unreachable |
| `StoreTidy.InsertKeepsTidy` | src/kvs/kvs.cpp:150-173 | without deletes, a set keeps one live slot per key and no gap before it |
| `StoreTidy.MigratedIsTidy` | src/kvs/kvs.cpp:75-123 | migration keeps the same |
| `StoreTidy.ResizedIsTidy` | src/kvs/kvs.cpp:63-97 | and so does a whole resize |
| `StoreLoss.GaveUpCount` | src/kvs/kvs.cpp:99-123 | without deletes, as many keys are given up on as entries are reported lost |
| `StoreLoss.ResizeKeepsOthers` | src/kvs/kvs.cpp:63-123 | without deletes, a resize makes exactly the keys given up on read as null and changes no other key's get |
| `StoreRefinement.SetLookup` | src/kvs/kvs.cpp:141-230 | without deletes, a set through any resize makes its own key read as set, exactly the keys given up on as null, and every other key as before |
| `StoreRefinement.RunAgrees` | src/kvs/kvs.cpp:63-230 | after any run without deletes, get agrees with the map of latest successful sets on every key not lost since |
| `StoreRefinement.ReplyAt` | src/kvs/kvs.cpp:208-230 | the i-th get of a run is answered from the state the first i operations led to |
| `StoreRefinement.RunsForgetOnlyLost` | src/kvs/kvs.cpp:63-230 | in every run without deletes every get returned the latest successful set of its key, or null if there was none or a migration has given up on the key since |
| `StoreRefinement.RunsRefineMap` | src/kvs/kvs.cpp:63-230 | when no migration gave up, every get returned the latest successful set of its key, or null if there was none, across any number of resizes |
| `StoreDeletes.HeldIsFound` | src/kvs/kvs.cpp:208-230 | in every reachable state a key that some slot holds, stale slots about or not, is one get finds |
| `StoreDeletes.InsertSettles` | src/kvs/kvs.cpp:146-201 | a set of a key that reads as null keeps one entry per key and changes the map of what every key reads as by exactly that key |
| `StoreDeletes.ResizeSettles` | src/kvs/kvs.cpp:63-123 | a resize that loses nothing keeps one entry per key and what every key reads as, stale slots or not |
| `StoreDeletes.DelSettles` | src/kvs/kvs.cpp:243-273 | with one entry per key, del answers whether the key was in the map, removes exactly it, and keeps one entry per key |
| `StoreDeletes.RunsWithDeletesRefineMap` | src/kvs/kvs.cpp:63-273 | in every run with deletes that loses nothing and, once a key was deleted, sets no key that still reads as something: every get returned the latest successful set of its key unless a successful del came after it, and every del answered whether there was one |
| `StoreCapacity.PathIsInjective` | src/kvs/kvs.cpp:59-61 | from 17 buckets on, a probe whose sum does not wrap visits twenty different slots |
| `StoreCapacity.SetFailsWhenFull` | src/kvs/kvs.cpp:150-173 | a set below the threshold fails exactly when the buckets 0, 1, 4, 9 and 16 from the hash hold four other keys' entries each, for every hash, wrap included, and every table size; from 17 buckets on, short of a wrap, those are twenty different slots |
| `StoreCapacity.SetCollisions` | src/kvs/kvs.cpp:150-173 | a set adds to the collision count exactly the number of full buckets it passes, whether or not it finds room |
| `StoreCapacity.GetProbes` | src/kvs/kvs.cpp:208-230 | a get finds a key exactly when one of the twenty slots of its five buckets holds a live entry of it, in a store whose values decompress |
| `StoreCapacity.FailsIffFull` | src/kvs/kvs.cpp:150-173 | on any path, a set fails exactly when every slot of it holds another key's entry |
| `StoreCapacity.FullPathNeedsManyKeys` | src/kvs/kvs.cpp:150-173 | without deletes, a full path means twenty other keys |
| `StoreCapacity.MigrationLosesNone` | src/kvs/kvs.cpp:99-123 | with at most twenty keys no migration gives up |
| `StoreCapacity.FewKeysNeverFail` | src/kvs/kvs.cpp:63-174 | a run without deletes over at most twenty keys fails no set and loses no entry in a resize |
| `StoreGrowth.SetSized` | src/kvs/kvs.cpp:141-174 | a set throws exactly when the entries have reached 70% of the size and no size is left, and otherwise resizes exactly when they have, to the next size |
| `StoreGrowth.RunSizes` | src/kvs/kvs.cpp:63-174 | over every run, after k resizes the table has the k-th size queued, or the first size doubled k times, the sizes behind it are still queued in order, the entries counted are the sets that succeeded, and the next set resizes or throws exactly as 70% of the size and the sizes left say |
| `StoreWitness.DeletedKeyReturns` | src/kvs/kvs.cpp:150-165 | two keys with the same first bucket: after a delete a set writes a second copy ahead of a live one, and deleting that brings the older value back |
| `StoreResizeWitness.OlderValueReturns` | src/kvs/kvs.cpp:63-123 | five keys with the same first bucket, one delete and one more set: the fifth key reads its new value, and after a resize that loses nothing its old one |
| `StoreMemory.CommandTouches` | src/kvs/kvs.cpp:141-273 | a command frees or replaces at most one entry's buffer, and a live one only if it belongs to the command's own key |
| `StoreMemory.StepFrees` | src/kvs/kvs.hpp:87-98 | a value's buffer stays the same allocation with the same bytes until a command touches its entry, and never comes back |
| `Rounds.SentOwnTextIff` | src/server/server.cpp:374-390 | a response sent when its round ends carries the text it was made with, whatever freed memory holds, exactly when it has a buffer of its own, is empty, or no later command freed the entry it points at |
| `Rounds.UndisturbedIsFaithful` | src/server/server.cpp:374-390 | it does if no command handled between making and sending it sets or deletes its key |
| `Rounds.SentAsMade` | src/server/server.cpp:374-390 | so a connection none of whose GETs shares its round with a later write of its key is sent all its responses as they were made |
| `Sharding.ShardsRunAlone` | src/server/server.cpp:109-146 | through any interleaving of all connections' commands, each shard ends as a store of its own that was given only the commands whose hash is its number modulo the number of shards, and the server stops exactly when one of those stores throws |
| `Sharding.AnsweredAlone` | src/server/server.cpp:109-146 | every command is answered with what that store on its own replies last, as text |
| `Sharding.ServerIsMap` | src/server/server.cpp:109-146 | without deletes and as long as no resize gives up, all shards together are one map: every key reads as the latest set answered OK, and so was every get answered, through any interleaving and any resizes |
| `Overwrites.SetSeats` | src/kvs/kvs.cpp:141-201 | without deletes, a set replaces a key's entry exactly when it is a set of that key whose resize does not give up on it; an entry given up on is adrift, any other stays where get finds it |
| `Overwrites.SetAdrift` | src/kvs/kvs.cpp:141-201 | an entry adrift is never touched again |
| `Overwrites.StartsCalm` | src/kvs/kvs.cpp:5-23 | the shards as the server creates them satisfy what the next result asks of the shards it starts from |
| `Overwrites.LostExactlyWhenOverwritten` | src/server/server.cpp:374-390 | without deletes, a GET's response is sent with other bytes than its own exactly when its value is non-empty and stored as it is, and a later SET of the key before the send is answered OK, unless that or an earlier event gave up on the key's entry |
| `RoundsWitness.GetAnswersLaterSet` | src/server/protocol.cpp:399-406 | a GET and a later SET of its key in one round: the response is sent from the freed buffer and can show the later value |
| `RoundsWitness.AnyValueIsAnswered` | src/server/server.cpp:111-117 | a custom GET answers with whatever value any connection set, separators in it or not |
| `KeyValueStore.CalcIndex` | src/kvs/kvs.cpp:59-61 | the bucket 0, 1, 4, 9 or 16 from the hash, modulo 2^64 and then modulo the size; its four slots are the next four of the probe path |
| `KeyValueStore.FindEntry` | src/kvs/kvs.cpp:208-230 | the probe loop finds the first live same-key entry of the path |
| `KeyValueStore.FindOpenSlot` | src/kvs/kvs.cpp:146-173 | the probe loop of set finds the first empty, vacated or same-key slot, and counts the full buckets passed |
| `KeyValueStore.FindUnusedSlot` | src/kvs/kvs.cpp:105-118 | the probe loop of a migration finds the first empty slot |
| `KeyValueStore.MigrateEntry` | src/kvs/kvs.cpp:99-123 | moves one live entry to the first empty slot of its path, or reports it lost |
| `KeyValueStore.MigrateAll` | src/kvs/kvs.cpp:75-84 | the nested loops migrate every slot in table order and count what is lost |
| `KeyValueStore.KeyValueStore.constructor` | src/kvs/kvs.cpp:5-23 | builds the initial store |
| `KeyValueStore.KeyValueStore.Get` | src/kvs/kvs.cpp:208-235 | answers what the value model's get does |
| `KeyValueStore.KeyValueStore.Del` | src/kvs/kvs.cpp:243-273 | leaves the state the value model's del does, slot left behind included |
| `KeyValueStore.KeyValueStore.InsertEntry` | src/kvs/kvs.cpp:176-201 | takes the head of the free list and fills it, compressed or not |
| `KeyValueStore.KeyValueStore.Insert` | src/kvs/kvs.cpp:146-173 | leaves the state the value model's insertion does, found room or not |
| `KeyValueStore.KeyValueStore.Resize` | src/kvs/kvs.cpp:63-97 | leaves the state the value model's resize does, or reports that the generator threw; which size that is, `RunSizes` says |
| `KeyValueStore.KeyValueStore.Set` | src/kvs/kvs.cpp:141-174 | leaves the state the value model's set does, and never draws on the pool's own generator |
| `Primegen.FirstSegmentPrimes` | src/primegen/primegen.cpp:11-24 | what survives the sieve from 2 on is exactly the primes |
| `Primegen.LaterSegmentsUnsieved` | src/primegen/primegen.cpp:18-19 | in a segment whose numbers are below the square of its start, every number survives |
| `Primegen.CrossOut` | src/primegen/primegen.cpp:21-23 | the inner loop clears exactly the multiples of `i` from its square on |
| `Primegen.Sieve` | src/primegen/primegen.cpp:16-24 | the flags left set are the numbers no factor from the segment's start on, of square at most the number, divides |
| `Primegen.GreedyGrows` | src/primegen/primegen.cpp:26-47 | a greedy selection grows from 2053 on by at least 2 each time, as the store needs |
| `Primegen.Select` | src/primegen/primegen.cpp:26-47 | the selection loop takes each time the least candidate that reaches the target |
| `Primegen.SizesReach` | src/primegen/primegen.cpp:26-47 | the first size is the least candidate from 4106 on; each later one is the least candidate that reaches 4, 3/2, 6/5, 11/10 or 21/20 times the one before, by its range; below the end none such is left |
| `Primegen.SegmentCandidates` | src/primegen/primegen.cpp:11-24 | the sieve lets through the primes of the first segment and every number after it |
| `Primegen.InitGenerator` | src/primegen/primegen.cpp:3-55 | the queue holds the right sizes, each factor and range spelled out, nothing eligible below the limit left out; its sizes grow by at least 2, and those in the first segment are prime |
| `Primegen.DefaultQueue` | src/primegen/primegen.hpp:11-16 | with a limit of a billion and segments of a million the sizes are the right ones, grow as the store needs, and are prime below 1000002 |
| `Decimal.NumeralOfDigits` | src/server/protocol.cpp:277-292 | the digits written for a number stand for that number |
| `Decimal.DigitsFit` | src/server/protocol.cpp:277-279 | every 64-bit value fits the twenty-byte scratch buffer |
| `Decimal.WriteDigits` | src/server/protocol.cpp:277-292 | the divide loop and the in-place reversal write exactly the canonical digits, zero included |
| `Decimal.ReadInvertsWrite` | src/server/protocol.cpp:257-292 | reading a header back gives the number written, for all 64-bit values, whatever follows |
| `Decimal.ReadCutHeader` | src/server/protocol.cpp:304-322 | a header cut after its prefix or its CR is refused, and cut among its digits it runs out |
| `RespRequest.FrameOfRequest` | src/server/protocol.cpp:294-356 | a canonical array is framed as exactly its bytes, whatever follows |
| `RespRequest.FrameOfCutRequest` | src/server/protocol.cpp:294-356 | a strict non-empty prefix is an error exactly at cuts after `*`, after `$` or after a header CR, and incomplete at every other |
| `RespRequest.ParseRespMessageLength` | src/server/protocol.cpp:294-356 | the index loops compute the framing function: status, and the exact length when complete |
| `RespGrammar.FrameIff` | src/server/protocol.cpp:294-356 | any bytes frame as an array with given elements and rest exactly when they read `*`, digits, CRLF and that many times `$`, digits, CRLF, as many bytes as the digits say modulo 2^64, CRLF |
| `RespGrammar.FrameWaitsIff` | src/server/protocol.cpp:294-356 | any bytes are waited on exactly when they are such an array cut short at a place the code does not refuse |
| `RespCommand.FramedIsParsed` | src/server/protocol.cpp:294-397 | a framed request is parsed exactly when it has one to three elements, into the framer's payloads, and no byte outside matters |
| `RespCommand.TerminatedCString` | src/server/protocol.cpp:373-390 | the C string at a payload's address is the payload up to its first NUL |
| `RespCommand.ParseRespCommand` | src/server/protocol.cpp:358-397 | parses in place what the specification extracts, writes NUL over payload terminators only, and touches no byte outside its view |
| `Framing.NextOfMessage` | src/server/server.cpp:433-479 | a whole message at the front is taken as one request, separators inside a RESP payload or not |
| `Framing.NextOfCut` | src/server/server.cpp:433-479 | a cut message makes the loop wait, or close the connection exactly at the refused cuts |
| `RespGrammar.NextOnAnyBytes` | src/server/server.cpp:433-479 | what one turn of the framing loop does with any bytes at all: skip a separator, take, await or refuse an array, take a custom message up to its separator or await it |
| `Framing.SessionFramesMessages` | src/server/server.cpp:373-489 | over any chunks of any message stream: closed exactly when a pass ended at a refused cut; otherwise the requests are the messages received whole, in order, and the buffer is the unconsumed suffix |
| `Framing.ClosedDropsPass` | src/server/server.cpp:447-455 | a connection closed by a pass has handed over the messages whole before that pass: whole messages that came with the refused cut are dropped |
| `FramingSeparators.CarriedIsDropped` | src/server/server.cpp:379-382 | a pass that found requests drops as many bytes of the unconsumed suffix as were carried into it, and erases past the buffer's end exactly when there are fewer |
| `FramingSeparators.AwaitingCarriesSeparators` | src/server/server.cpp:481-489 | a pass that found none carries bytes over exactly when the buffer begins with a separator |
| `FramingSeparators.SeparatorCountedTwice` | src/server/server.cpp:481-489 | a separator carried over is erased twice, and with it the first byte of the next message |
| `FramingSeparators.SeparatorOverruns` | src/server/server.cpp:379-383 | with nothing behind the message the second erasure runs past the end of the buffer |
| `FramingSeparators.LoneSeparatorsExactIff` | src/server/server.cpp:369-489 | with any separators between messages and any chunks: every pass that completes a message hands over exactly the whole ones and keeps exactly the cut one, if and only if no pass that kept nothing, began with a separator and completed no message is followed by one that completes a message, and none that ends at a refused cut completes one or is followed by one that does; without the former, the connection is closed exactly when a pass ended at a refused cut |
| `FramingSeparators.LoneSeparatorsShut` | src/server/server.cpp:447-455 | and has then handed over the messages whole before the closing pass, and nothing since |
| `LoneSeparators.SessionExactIff` | src/server/server.cpp:369-489 | the same equivalences for any framing that skips a separator wherever one is next |
| `LoneSeparators.SessionShut` | src/server/server.cpp:447-455 | the same of the connections such a framing closes |
| `Streams.ScanPrefix` | src/server/server.cpp:433-479 | scanning a prefix of a stream finds the items it holds whole, then stops or fails as its last cut says |
| `Streams.SessionFollowsStream` | src/server/server.cpp:373-489 | the same as the session theorem for any framing whose items can be told apart |
| `Streams.SessionClosed` | src/server/server.cpp:447-455 | the same as the theorem on closed connections for any such framing |
| `Connection.ConnectionData.FrameNext` | src/server/server.cpp:434-479 | one turn of the loop: what it takes and how far it moves; the new view begins where the turn did and ends where it moved to, the separator overwritten by NUL |
| `Connection.ConnectionData.ReadRequest` | src/server/server.cpp:402-490 | the views queued lie one behind the other and show exactly the requests the scan finds, and `bytesToErase` grows by what was scanned; an error clears everything |
| `Connection.ConnectionData.DrainPending` | src/server/server.cpp:375-379 | every pending request is understood as framed, though all are taken apart in one buffer, and no byte behind them changes |
| `Connection.ConnectionData.EraseConsumed` | src/server/server.cpp:380-383 | the connection keeps the buffer behind `bytesToErase`, unless that runs past its end |
| `Connection.ConnectionData.ServePass` | src/server/server.cpp:369-490 | a whole pass over the mutable buffer is the pass of the stream model, and its requests are handled as the messages framed |
| `RequestViews.HandleView` | src/server/server.cpp:174-322 | a request is understood as its bytes say, which `MeaningIff`, `MeaningWrong` and `RespCommandIff` spell out, and no byte outside its own view changes |
| `RequestViews.Drain` | src/server/server.cpp:375-379 | requests handled in order in one shared buffer do not disturb each other |
| `RequestViews.MessagesAreUnderstood` | src/server/server.cpp:369-489 | however a stream of custom and RESP messages is cut, the requests handed over are understood as exactly the messages received whole |
| `RequestViews.RespCommandIff` | src/server/server.cpp:182-279 | a RESP array is a store command exactly when its elements, each up to its first NUL, are the command's words |
| `RequestViews.RespCommandRead` | src/server/protocol.cpp:358-397 | a RESP client's command is read as it was meant, keys with spaces and empty keys included |
| `CustomProtocol.UnderstoodIff` | src/server/server.cpp:282-322 | the server reads a client's command as it was meant exactly when its key holds no space and, unless it is a SET, is not empty; values may hold spaces or be empty |
| `CustomProtocol.MeaningIff` | src/server/server.cpp:282-322 | a payload is a GET, SET or DEL of a key and value exactly when it is the name, a space, a key without spaces and, for SET, a space and the value, each cut at its first NUL; anything behind a second space of GET and DEL is ignored |
| `CustomProtocol.MeaningWrong` | src/server/server.cpp:282-322 | every other payload is refused, with its own message for no space, for nothing behind the space or a SET without a value, and for an unknown name |
| `CustomProtocol.CommandsArrive` | src/client/cache_client.hpp:437-470 | however the client's bytes are cut, the connection stays open and the requests framed mean exactly the commands received whole, in order |
| `CustomProtocol.ParseCustomRequest` | src/server/server.cpp:282-322 | the in-place parser reads what `MeaningIff` and `MeaningWrong` spell out and writes at most one NUL, over a space inside its own view |
| `RespReply.DecodeInvertsEncode` | src/server/protocol.cpp:408-561 | every reply reads back as what was encoded, whatever follows: all 64-bit integers, any bulk string, null, nested arrays |
| `RespReply.IntegerReads` | src/server/protocol.cpp:435-464 | every integer of 64 bits, the least one included, reads back |
| `RespReply.BulkReads` | src/server/protocol.cpp:466-497 | any bulk string reads back and is never taken for null, not even a stored "(nil)" |
| `RespEncoders.FillSimple` | src/server/protocol.cpp:418-432 | fills exactly the computed total with the encoding and nothing outside it |
| `RespEncoders.FillError` | src/server/protocol.cpp:545-560 | likewise, behind the error prefix |
| `RespEncoders.FillInteger` | src/server/protocol.cpp:435-464 | likewise, without overflow at the least integer |
| `RespEncoders.FillBulk` | src/server/protocol.cpp:476-497 | likewise, for every length |
| `RespEncoders.FillArray` | src/server/protocol.cpp:499-533 | likewise, the element packets one behind the other |
| `RespEncoders.ArrayOfReplies` | src/server/protocol.cpp:499-533 | an array of encoded replies is the encoding of the array of those replies |
| `InlineArena.SlotsArePartitioned` | src/server/protocol.cpp:95-145 | free and owned slots share the 256 slots out, none is both and none is neither |
| `InlineArena.RegionsDisjoint` | src/server/protocol.cpp:124-133 | slots lie within the storage and clear of each other |
| `InlineArena.LowestFirst` | src/server/protocol.cpp:95-113 | a fresh arena hands its 256 slots out from the lowest up |
| `InlineArena.RespInlineArena.EnsureCapacity` | src/server/protocol.cpp:115-122 | the storage is replaced, and every slot free in order, exactly when no slot is owned and its slots have another size than the capacity asked for; otherwise nothing changes |
| `InlineArena.RespInlineArena.Release` | src/server/protocol.cpp:135-145 | pushes exactly this slot on the free list, then replaces the storage exactly when none is owned any more and the size differs |
| `InlineArena.RespInlineArena.Pointer` | src/server/protocol.cpp:147-153 | the address of an owned slot, which asking for it does not move |
| `InlineArena.RespInlineArena.TryUseInline` | src/server/protocol.cpp:169-188 | the packet's former slot is pushed first; it then gets a slot exactly when one is free and large enough, and it is the last one pushed; others keep theirs |
| `InlineArena.RespInlineArena.SetOwnedBuffer` | src/server/protocol.cpp:190-198 | the packet shows the buffer, and its former slot is free |
| `InlineArena.RespInlineArena.SetStaticData` | src/server/protocol.cpp:200-208 | the packet shows the static bytes, and its former slot is free |
| `InlineArena.RespInlineArena.Assign` | src/server/protocol.cpp:210-242 | the packet shows what the other showed, owns what it owned, and the other is empty; self-assignment keeps the bytes |
| `InlineArena.RespInlineArena.Destroy` | src/server/protocol.cpp:244-251 | the slot goes back and nothing refers to the packet |
| `InlineArena.RespInlineArena.WriteSlot` | src/server/protocol.cpp:420-432 | filling one packet's slot changes the bytes of no other packet |
| `InlineArena.RespInlineArena.RunActions` | src/server/protocol.cpp:158-251 | over every run of creation, filling, moving, reassignment, destruction and capacity change, a packet beside those acted on shows the same bytes in the same slot, and storage it has a slot in stays |
| `Transactions.MeaningOfWords` | src/server/server.cpp:182-279 | a request is a store command exactly when spelled as one, and a control request exactly by its first word |
| `Transactions.IdleStaysEmpty` | src/server/server.cpp:147-280 | over every run an inactive transaction has an empty queue and no abort flag |
| `Transactions.ActiveRunQueues` | src/server/server.cpp:147-280 | while a transaction is open only commands from elsewhere reach the store, the queue holds exactly the well-formed commands in order, and anything else dooms it |
| `Transactions.IdleRunPerforms` | src/server/server.cpp:240-275 | outside a transaction commands are performed one after the other |
| `Transactions.TransactionIsAtomic` | src/server/server.cpp:182-238 | EXEC leaves the store and the replies that sending the same commands directly at that moment would, exactly when nothing else was sent; otherwise it is refused, and then, as after DISCARD, the store saw none of them |
| `TransactionReplies.ReplyBytes` | src/server/protocol.cpp:408-561 | the bytes of every kind of reply, prefix, length and CRLF written out |
| `TransactionReplies.RequestAnswered` | src/server/server.cpp:147-280 | for every request on every connection, by its words alone: the new store, transaction and error count, and the answer byte for byte; a refusal leaves the store alone and counts one error, a nested MULTI or malformed request dooms the transaction, EXEC answers what the queued commands are answered one by one |
| `ServerTransactions.BackendPerforms` | src/server/server.cpp:109-146 | the shards, each key in the one its hash picks, are such a store: a command performed through it does and answers what it does to its shard |
| `ServerTransactions.FirstThrow` | src/kvs/kvs.cpp:63-97 | commands on the shards all run, or stop at the first whose prime generator throws, with the effects of those before it |
| `ServerTransactions.ExecOnShards` | src/server/server.cpp:182-238 | EXEC on the shards, whatever came from elsewhere meanwhile: a sound transaction is performed in order and answered with its replies if no shard throws; if one does, the effects of the commands before it stay and EXEC is not answered; a doomed one leaves the shards alone |
| `RequestProcessing.RespHandler.Begin` | src/server/server.cpp:182-193 | MULTI on a connection without a transaction object, with an idle one or inside one, as `RequestAnswered` spells out |
| `RequestProcessing.RespHandler.Abandon` | src/server/server.cpp:195-205 | DISCARD with and without a transaction |
| `RequestProcessing.RespHandler.ExecuteAll` | src/server/server.cpp:220-233 | the loop over the queue performs all of it in order |
| `RequestProcessing.RespHandler.Commit` | src/server/server.cpp:207-238 | EXEC without, with a doomed and with a sound transaction, as `RequestAnswered` spells out |
| `RequestProcessing.RespHandler.Process` | src/server/server.cpp:147-280 | every RESP request leaves the connection the transaction model does, and its answer is, byte for byte, what the request's words call for |
| `SendLoop.BuildVector` | src/server/server.cpp:541-564 | the vector holds the responses in order, which bytes at which offsets `StreamBytes` says, and the total is its length |
| `SendLoop.Advance` | src/server/server.cpp:587-596 | after any partial write the rest of the vector is the unsent bytes, empty entries or not |
| `SendLoop.DeliveredIsCapacity` | src/server/server.cpp:572-585 | how much gets out depends only on what the socket takes before it fails, not on retries or write sizes |
| `SendLoop.SendResponses` | src/server/server.cpp:541-601 | what went out and what is left make up the intended stream at every cut; all of it unless the send failed |
| `WireBytes.StreamBytes` | src/server/server.cpp:541-564 | for any mix of both protocols: at the offset of each response, the sum of the data before it and one byte per custom response before it, lies its data, then 0x1F exactly when it is custom; the total is all data and one byte per custom response |
| `WireBytes.RepliesReadBack` | src/server/server.cpp:541-564 | a RESP reader finds in a stream of RESP replies exactly those replies and nothing behind them |
| `WireBytes.SendReplies` | src/server/server.cpp:541-601 | over any script of partial writes that takes enough, what went out reads back as exactly the replies; otherwise as many bytes as the socket took |
| `RoundSends.SendBatch` | src/server/server.cpp:541-601 | a round's send puts out the part of the round's bytes that the socket took before it failed, and all of them otherwise |
| `RoundSends.SendAll` | src/server/server.cpp:386-390 | the wire holds what each round got out, one round behind the other, failed ones included |
| `RoundSends.WireAtPlaces` | src/server/server.cpp:575-601 | every byte on the wire is the byte of the whole stream of responses at its own place |
| `RoundSends.InPlaceIff` | src/server/server.cpp:575-582 | the places count up from 0 without a gap exactly when no round whose send came up short is followed by one that gets a byte out |
| `RoundSends.WireIsPrefix` | src/server/server.cpp:575-582 | and then the wire is a prefix of the whole stream of responses |
| `RoundSends.GapMayNotShow` | src/server/server.cpp:575-582 | not conversely: a reply equal to the one dropped before it stands in for it |
| `RoundSends.DroppedRoundsLeaveNoTrace` | src/server/server.cpp:575-582 | when every round gets out whole or not at all, the wire is exactly the stream of the rounds that got out |
| `ClientModel.Receive` | src/client/cache_client.hpp:236-275 | a response taken shortens the pending queue |
| `ClientModel.Await` | src/client/cache_client.hpp:283-290 | waiting ends, because every round takes a request off the queue, and yields only the response asked for |
| `ClientModel.ResponseFields` | src/client/cache_client.hpp:472-529 | for every message: an error and its text exactly when it begins with "ERROR:" and does not answer a delete with the missing-key text; not found exactly for that and for "(nil)" to a get; a value exactly otherwise to a get |
| `ClientReceives.ReceiveEnds` | src/client/cache_client.hpp:236-275 | receive goes through interruptions and data without a separator and ends as the next call says: blocked, failed, closed, or a response as soon as a separator is there, keeping what lies behind it |
| `ClientReceives.ReceiveAtOnce` | src/client/cache_client.hpp:236-275 | without a pending request, or with a whole message buffered already, no call is made |
| `ClientRuns.ReceiveTakesNext` | src/client/cache_client.hpp:236-275 | a response received is the next reply given to the next request, over any chunks and interruptions |
| `ClientRuns.WaitKeepsLedger` | src/client/cache_client.hpp:278-290 | waiting for any id keeps pending, cached and delivered ids a partition of the issued ones |
| `ClientRuns.RunKeepsLedger` | src/client/cache_client.hpp:187-290 | over every run: the i-th reply belongs to the i-th request, and pending, cached and delivered ids share out the issued ones, each once |
| `ClientRuns.WaitForGets` | src/client/cache_client.hpp:278-290 | waiting for an undelivered request returns its own reply once that is cached, buffered or on its way |
| `ClientRuns.WaitForNoMore` | src/client/cache_client.hpp:278-290 | an id already delivered or never issued is never answered |
| `CacheClient.TextIsMessage` | src/client/cache_client.hpp:437-470 | the client writes a command exactly when the server's custom path can read it, in the form it reads |
| `CacheClient.SendsInOrder` | src/client/cache_client.hpp:199-233 | over every run of requests and flushes, failed ones included, no byte is lost, repeated or reordered |
| `CacheClient.CacheClient.Enqueue` | src/client/cache_client.hpp:437-449 | issues the next id and appends the command, or throws and changes nothing |
| `CacheClient.CacheClient.FlushPending` | src/client/cache_client.hpp:199-233 | sends a prefix of the unsent bytes and keeps the rest, through partial and failed sends |
| `CacheClient.CacheClient.TryParseResponse` | src/client/cache_client.hpp:472-514 | takes the first whole message for the first pending request; with none pending the message is consumed all the same |
| `CacheClient.CacheClient.ReceiveResponse` | src/client/cache_client.hpp:236-275 | the receive loop is the receiving of the client model |
| `CacheClient.CacheClient.WaitForResponse` | src/client/cache_client.hpp:278-290 | the wait loop is the waiting of the client model |
| `EndToEnd.ToldWhatHappened` | src/client/cache_client.hpp:516-529 | the client is told what happened to the store exactly unless it fetched a value that reads like an error or "(nil)" |
| `EndToEnd.RespTellsWhatHappened` | src/server/server.cpp:109-146 | the bytes of a RESP reply, whatever follows them, tell what happened to the store without exception |
| `EndToEnd.CustomAnswered` | src/server/server.cpp:111-145 | the text for any custom payload: for one that spells a command, the value or "(nil)", "OK", or the error its shard calls for; for any other its refusal, and nothing changes |
| `EndToEnd.SplitsBackIff` | src/client/cache_client.hpp:472-480 | a client finds the replies in their stream exactly when none of them holds a separator |
| `EndToEnd.SeparatorShiftsReplies` | src/client/cache_client.hpp:472-490 | a reply with a separator in it answers two requests, and every later reply goes to the wrong one |
| `EndToEnd.SeparableIff` | src/server/server.cpp:111-145 | the responses of a connection can be told apart exactly when none of its commands fetched a value with a separator |
| `EndToEnd.CleanIsSeparable` | src/server/server.cpp:111-145 | and that holds over every run in which no value set, by whichever connection, holds one |
| `EndToEnd.RoundTrip` | src/server/server.cpp:369-392 | commands sent in any chunks and handled among others', in rounds whose sends may fail: if no value holds a separator, no GET shares its round with a later write of its key and no round cut short is followed by one that gets a byte out, the responses come back to their own requests as they were made, however they are cut |
| `EndToEnd.FailedSendShiftsReplies` | src/server/server.cpp:575-582 | a round whose send fails whole, then one that gets out: the client takes the later reply for its first request |
| `EndToEnd.CallerLearns` | src/client/cache_client.hpp:472-529 | a caller holding the response to its i-th command knows what that command did to the store it found, ambiguous values excepted |

## Left out

- Sockets, epoll, coroutines, threads, connection limits and timeouts: reads and sends are scripts of outcomes; how many reads make one pass is not modelled.
- zlib and MurmurHash3: any codec that round-trips and any hash.
- OpenMP in `resize` and in the sieve: the loops run in order.
- Primegen.InitGenerator: the growth factor is a real number, so its rounding as a `double` is not modelled.
- Primegen.Select: likewise, the target is an exact product.
- Primegen.DefaultQueue: likewise, so the queue is the one exact arithmetic gives.
- StoreModel.SetSpec: table sizes of which 70 times exceeds 64 bits are not modelled.
- RespRequest.ParseRespMessageLength: adding a declared length to a buffer position does not wrap at 64 bits; the decimal accumulation itself does.
- StoreRuns.RunKeepsGood: after the prime generator has thrown, the store's resizing flag stays set; calls made after that are outside the runs.
- StoreRuns.EveryRunIsGood: likewise.
- EntryPool.MemoryPool.Allocate: a prime at or below the capacity, which the memory copy of `expandPool` could not hold, is excluded.
- EntryPool.MemoryPool.ExpandPool: likewise.
- Rounds.SentAsMade: the shards' stores are those of `StoreModel`; after a prime generator has thrown nothing further is answered.
- The compressed length kept beside a blob is the blob's own length here.
- `cleanTable` and the destructors of the store.
- RequestProcessing.RespHandler.Process: the store is anything with look-up, insertion and removal; what a throw out of the shards leaves is stated by `ExecOnShards` instead.
- `persistString`: queued keys and values are values, so the lifetime of their copies is not modelled.
- RespEncoders.FillSimple: the table of prebuilt replies is not modelled; its bytes are taken to be what the encoder would write.
- RespEncoders.FillError: likewise.
- `sendResponse` for a single packet, which repeats the loop of the batch.
- The client's `connect`, `close`, move operations and Windows branches; a request id does not wrap.
- Metrics, configuration, and the error counter outside RESP request handling.
