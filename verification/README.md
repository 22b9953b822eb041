# Verified model of the storage components

A Dafny model of the stateful parts of a distributed storage system, with proofs over whole runs:

- **Chunk server (manusya).** A chunk accepts appends in any order. An append at the current size is
  written and the waiting set is drained; one beyond the size is parked with a timer; one below it is
  refused. Every critical section under the chunk's mutex is one step (`ChunkModel`), and what every
  interleaving keeps is proved in `ChunkSafety`, `ChunkRuns`, `ChunkExact`, `ChunkOrder` and
  `ChunkStranded`; what each call answers, case by case, in `ChunkAnswers`. The chunk object works on
  a store object: named files and open handles, with a kind for the memory store and the file store
  (`StoreObjects`). Each method of the chunk is proved to be such a step on its own file that leaves
  the rest of the store alone (`Chunk`); `Stores` has one file as the chunk sees it, and `ChunkStores`
  proves that chunks over the two kinds agree.
- **Erasure decoding.** The decode matrix is built in place (`Erasure`); that its rows recover every
  erased fragment is linear algebra over a commutative semiring (`LinearAlgebra`, `ErasureTheory`,
  `ErasureRecovery`). `GaloisField` shows that GF(2^8) obeys the laws this needs.
- **RocksDB store.** A two-level hash flattened into one sorted keyspace with prefix scans
  (`KeyOrder`, `SortedDb`, `HashStore`), and recovery from a checkpoint as a directory swap with scope
  guards (`ScopeExit`, `Recover`).
- **Metadata server (deva).** Path parsing (`Paths`), the directory tree (`Namespace`,
  `NamespaceObject`), the file-info table (`Deva`, `DevaObject`), and encoding and replay of logged
  operations (`OpLog`, `Rsm`).
- **Base library.** The context stack (`ContextStack`) and the promise/future protocol (`Future`).

How the model meets what it cannot see:

- Outcomes of the store, the file system, RocksDB and protobuf are parameters; the theorems hold for
  all of them. A request reaches the store at most once, so a chunk's write outcomes are a function
  `Io` of the request's number. No store holds 2^64 bytes: a write that would get there is refused.
- Timers fire in any order or not at all. A call of `append` is numbered by its arrival; the number is
  only a name for it. Setting a promise twice is recorded as `aborted`, and proved not to happen.
- Semiring laws and "success means inv · b = I" are hypotheses about `gf_mul` and `gf_invert_matrix`;
  that the first k rows of the encode matrix are the identity is one about `gf_gen_cauchy1_matrix`.
- Serialisation followed by parsing as the same type is the identity (`Invertible`).
- Inode ids are fresh when they are used, and a leader's closures run in log order.

Some properties one would expect do not hold everywhere; for these the exact condition is proved.

- A request's bytes may sit in the file although it was refused. "Answered OK" and "its bytes sit at
  its offset" coincide in every run if and only if no choice of the other requests, laid back to back
  from zero and below 2^64, reaches the request's end. A non-empty request that overlaps no other is a
  special case.
- A second request at an offset where one already waits is never linked: only its own timer answers
  it, with EINVAL, even if its offset becomes the size in the meantime.
- `Chunk::read` adds offset and size modulo 2^64. A range that wraps can pass the check; MemStore then
  answers OK with too few bytes where LocalStore refuses.
- A hash whose name is a proper prefix of another's counts that hash's fields as its own. Two hashes
  share flat keys if and only if one's name followed by an underscore is a prefix of the other's.
- A recovery from `<data>.bak` deletes its source first, succeeds, and returns the old contents.
- Detaching a context restores the stack below it if and only if no equal context was attached above;
  otherwise the cut is at the upper one and the lower one stays.
- A path that ends in a slash creates an entry with an empty name, which no path reaches.
- `decode` has no branch for CreateDir: a replica that has to decode one stops.
- Moving a released scope guard arms it again. `set_exception` on a promise that has an outcome
  replaces it. Detaching the default context from an empty stack reports success.

## Model

| member | source | states |
|---|---|---|
| ChunkObject.Chunk.Append | src/manusya/chunk.cc:12-96 | the critical section of append is the model's step, keeps the invariant and undoes nothing; EPERM when sealed, EINVAL below the size, a wait exactly beyond it, and at the size the store's own error, or OK with the bytes right behind the old file; no other answer changes the file |
| ChunkObject.Chunk.EnterAppend | src/manusya/chunk.cc:14-95 | sealed, below, beyond and at the size: refused, refused, parked, written and drained |
| ChunkObject.Chunk.DrainQueue | src/manusya/chunk.cc:72-94 | the drain loop terminates and computes the model's drain |
| ChunkObject.Chunk.Write | src/manusya/chunk.cc:64-70 | a store append moves the size modulo 2^64 on success and changes nothing on failure |
| ChunkObject.Chunk.Fire | src/manusya/chunk.cc:38-53 | after its timer fired, a request has the answer it had or else EINVAL, and exactly an unanswered one is out of the waiting set |
| ChunkObject.Chunk.QueryAndSeal | src/manusya/chunk.cc:98-114 | success seals and returns the file's length, which is the size; a failure is the null check's, the seal's or the size call's own and leaves the phase alone |
| ChunkObject.Chunk.Read | src/manusya/chunk.cc:116-133 | EINVAL and the caller's buffer for a range past the size, the open's own error if it fails, and the bytes of the range otherwise, each store in its way; no byte changes |
| ChunkObject.Chunk.constructor | src/manusya/chunk.cc:143-153 | a chunk on an empty file just opened is empty, open and satisfies the invariant |
| ChunkObject.Chunk.Create | src/manusya/chunk.cc:135-156 | OK exactly for non-null arguments, a name not yet in the store and an open that does not fail; then an empty open chunk, otherwise no chunk, the error of the first check that failed and an unchanged store |
| ChunkObject.Chunk.DrainFirst | src/manusya/chunk.cc:73-93 | one turn of the drain loop writes or refuses the first request and takes it out of the waiting set |
| ChunkObject.Chunk.WriteAndDrain | src/manusya/chunk.cc:64-94 | a failed write changes nothing; a successful one is followed by the drain |
| ChunkObject.Chunk.ReadThroughNewHandle | src/manusya/chunk.cc:126-132 | opening and reading through a handle of its own leaves the append handle at its place in the chunk's file |
| ChunkObject.Chunk.Perform | src/manusya/chunk.cc:12-133 | each event on the objects is the model's step and touches nothing of the store but the chunk's file |
| ChunkObject.PerformAll | src/manusya/chunk.cc:12-133 | every sequence of appends, timers, seals and reads on a chunk object is a run of the model; no other file of the store changes |
| ChunkObject.PerformOnBoth | src/manusya/chunk.cc:12-133 | chunk objects over a memory and a disk store that see the same events end with the same answers, size, phase and bytes |
| Requests.InsertKeepsSet | src/manusya/chunk.h:39-59 | the waiting set stays ordered by offset; a second request at a waiting offset is not linked |
| Requests.UnlinkKeepsSet | src/manusya/chunk.cc:47-47 | unlinking removes exactly that request and keeps the order |
| Requests.BytesSit | src/manusya/chunk.cc:64-70 | a buffer written back to back with those before it sits at its own offset |
| ChunkSafety.DrainKeeps | src/manusya/chunk.cc:72-94 | the drain keeps the invariant, answers no request twice and leaves only offsets beyond the new size |
| ChunkSafety.AppendKeeps | src/manusya/chunk.cc:12-96 | every append step keeps the invariant and undoes nothing |
| ChunkSafety.TimeoutKeeps | src/manusya/chunk.cc:38-53 | a timer step keeps the invariant, and its request is answered afterwards |
| ChunkSafety.ReadKeeps | src/manusya/chunk.cc:126-131 | a read through its own handle keeps the invariant and the bytes |
| ChunkSafety.RunKeeps | src/manusya/chunk.cc:12-133 | every interleaving keeps the invariant; answers, bytes and a seal are never taken back |
| ChunkAnswers.AppendAnswers | src/manusya/chunk.cc:12-96 | every append in every reachable state: refused with EPERM or EINVAL, parked, answered with the store's error, or written right behind the old file and answered OK; what else changes in each case |
| ChunkAnswers.DrainAnswers | src/manusya/chunk.cc:72-94 | whatever the store does, exactly the requests beyond the final size go on waiting; each other is refused if a written request has the byte at its offset, and otherwise gets the store's answer to its write |
| ChunkAnswers.AcceptedAppendSettles | src/manusya/chunk.cc:64-95 | an accepted append settles every waiting request at or below the new size in that way, and no other |
| ChunkAnswers.TimeoutAnswers | src/manusya/chunk.cc:38-53 | a timer answers a waiting request EINVAL and unlinks exactly it; on an answered one it changes nothing |
| ChunkAnswers.ReadAnswers | src/manusya/chunk.cc:116-133 | the reply to every range, wrapping or not, over either store: who refuses it and with what, or which bytes it gets |
| ChunkRuns.EveryRun | src/manusya/chunk.cc:12-96 | in every run no promise is set twice, a request whose timer fired is answered, OK means written, written bytes sit at their offset, the file is the written buffers in write order and the size its length |
| ChunkRuns.RefusedBytesMaySit | src/manusya/chunk.cc:19-21 | a refused request's bytes can sit at its offset |
| ChunkExact.OkIffSits | src/manusya/chunk.cc:12-96 | if the other requests cannot reach a request's end: answered OK, holding its bytes and lying inside the file are the same |
| ChunkExact.NoOverrunCoincides | src/manusya/chunk.cc:12-96 | then OK and sitting coincide in every run, whatever the order, contents, store outcomes, timeouts, seals and reads |
| ChunkExact.OverrunBreaks | src/manusya/chunk.cc:19-21 | if the others can reach a request's end, there is a run of all of them that refuses it with its bytes in place |
| ChunkExact.CoincideExactly | src/manusya/chunk.cc:12-96 | OK and sitting coincide in every run if and only if no back-to-back choice of the other requests reaches this one's end |
| ChunkExact.NoOverlapNoOverrun | src/manusya/chunk.cc:12-96 | requests that do not overlap a non-empty one cannot get past it |
| ChunkExact.OkIffInsideFile | src/manusya/chunk.cc:12-96 | for a non-empty request that overlaps no other: answered OK, holding its bytes and lying inside the file are the same |
| ChunkStranded.OccupiedOffsetStrands | src/manusya/chunk.cc:23-62 | a request parked at an offset where one waits already is not linked |
| ChunkStranded.OnlyItsTimerAnswers | src/manusya/chunk.cc:38-94 | in every run such a request stays unanswered until its own timer fires and is then answered EINVAL |
| ChunkRuns.SealIsFinal | src/manusya/chunk.cc:15-17 | after a seal no step changes bytes, size or phase, and every later answer is an error |
| ChunkRuns.RangeCheckExact | src/manusya/chunk.cc:122-125 | the range check is right exactly unless the sum wraps to at most the size |
| ChunkRuns.ReadsAreStable | src/manusya/chunk.cc:116-133 | a read inside the file gives the same reply at every later time |
| ChunkRuns.DrainIsExact | src/manusya/chunk.cc:72-94 | with a store that does not fail the drain removes exactly the requests at or below the final size, writes those that continue the file and refuses the rest |
| ChunkOrder.DrainTiles | src/manusya/chunk.cc:72-94 | draining requests that tile a range writes tiles in order and refuses none |
| ChunkOrder.OrderIndependence | src/manusya/chunk.cc:23-95 | appends that tile [0, N) are all answered OK and leave the same file in every order of arrival |
| Stores.WriteAt | src/manusya/local_store.cc:69-78 | a write puts its bytes at the descriptor's position, keeps every byte outside that range and fills a hole with zeros |
| Stores.PositionalAppend | src/manusya/local_store.cc:63-81 | a positional write is a logical append exactly when the handle stands at the end |
| Stores.ReadKeepsAppendPosition | src/manusya/local_store.cc:83-113 | a read keeps the append handle at the end exactly when it goes through another handle or happens to end there |
| StoreObjects.OpensAgree | src/manusya/mem_store.cc:30-43 | both kinds of store open alike exactly when O_EXCL is not given without O_CREAT for an existing file |
| StoreObjects.Store.Open | src/manusya/mem_store.cc:22-46 | OK exactly for flags that fit the file's presence; then a new handle at position zero on a file that is empty if new or truncated and keeps its bytes otherwise; on an error, and for all other files and handles, nothing changes |
| StoreObjects.Store.Append | src/manusya/local_store.cc:63-81 | what lands is an append to the handle's file, whatever offset the caller names: all of it, nothing on an error, or a part followed by an abort; no other file or descriptor changes |
| StoreObjects.Store.Read | src/manusya/local_store.cc:83-113 | no byte changes and no descriptor but its own moves; a short read, a failing read and an offset beyond off_t are refused on disk, while MemStore answers OK with what it finds |
| StoreObjects.Store.Size | src/manusya/local_store.cc:129-145 | the length of the handle's file, which stays as it is |
| StoreObjects.Store.Remove | src/manusya/local_store.cc:147-158 | MemStore always succeeds, LocalStore exactly on an existing file; then only O_CREAT opens the name again, and every other file is as it was |
| StoreObjects.OthersKeepTheirFile | src/manusya/mem_store.cc:48-59 | an operation on one path leaves the file of every handle of another path alone, with all its readers |
| StoreObjects.ReadView | src/manusya/chunk.cc:126-131 | a read through a handle just opened is, to the chunk's append handle, a read through one more reader |
| StoreObjects.WrittenView | src/manusya/local_store.cc:69-80 | a write through a handle is an append to that handle's file, with all readers where they were |
| ChunkStores.StoresAgree | src/manusya/local_store.cc:63-113 | a chunk over either store has the same answers, size, phase and bytes on every run |
| ChunkStores.ReadRepliesAgree | src/manusya/mem_store.cc:61-71 | reads that pass the check get the same reply from both stores exactly when the range does not wrap, read(2) does not fail and the buffer was empty |
| Survivors.SurvivingIsExact | src/examples/ec/ec_demo.c:243-250 | the survivors are exactly the fragments not erased, strictly increasing |
| Survivors.EnoughSurvivors | src/examples/ec/ec_demo.c:123-127 | at most p erasures, repeated or not, leave at least k fragments |
| Erasure.MarkErasures | src/examples/ec/ec_demo.c:234-241 | a fragment is flagged exactly when it is in the erasure list |
| Erasure.SkipErased | src/examples/ec/ec_demo.c:245-246 | the skip loop stays below m and stops at the next survivor |
| Erasure.SelectSurvivors | src/examples/ec/ec_demo.c:243-250 | decode_index is the first k survivors and b consists of their rows, all within the m·k buffers |
| Erasure.CopySourceRows | src/examples/ec/ec_demo.c:256-262 | the row for an erased source is that row of the inverse |
| Erasure.MultiplyColumn | src/examples/ec/ec_demo.c:268-272 | the accumulator is the entry of the parity row times the inverse |
| Erasure.MultiplyRow | src/examples/ec/ec_demo.c:267-273 | a whole parity row times the inverse, nothing else touched |
| Erasure.MultiplyParityRows | src/examples/ec/ec_demo.c:264-275 | the row for an erased parity is its encode row times the inverse; source rows stay |
| Erasure.GenDecodeMatrix | src/examples/ec/ec_demo.c:222-277 | it fails exactly when b is not inverted; otherwise every decode row times the chosen survivors is the erased fragment, for all data, source and parity alike |
| ErasureTheory.InverseRecoversData | src/examples/ec/ec_demo.c:252-262 | the inverse times the surviving fragments is the source data |
| ErasureTheory.RowRecovers | src/examples/ec/ec_demo.c:256-275 | the recovery row of any fragment times the survivors is that fragment |
| ErasureRecovery.RecoveredBuffers | src/examples/ec/ec_demo.c:195-211 | encoding the chosen fragments with the decode matrix gives back every erased fragment byte for byte |
| LinearAlgebra.Associative | src/examples/ec/ec_demo.c:269-271 | a row times a matrix times a vector may be bracketed either way |
| GaloisField.FieldIsLawful | src/examples/ec/ec_demo.c:270-271 | xor and carry-less multiplication modulo x^8+x^4+x^3+x^2+1 obey the semiring laws |
| GaloisField.ReductionPolynomial | src/examples/ec/ec_demo.c:270-271 | the powers of x are the single bits, and x^8 is x^4+x^3+x^2+1 |
| KeyOrder.Between | src/common/rocksdb_store.cc:278-280 | what lies between a prefix and a key that has it, has it |
| SortedDb.ScanIsSlice | src/common/rocksdb_store.cc:278-292 | the entries with a prefix are contiguous from the seek point |
| SortedDb.ScanExact | src/common/rocksdb_store.cc:299-304 | seek and scan yield exactly the entries with the prefix, in order, once each |
| HashStore.MakeKeyInjective | src/common/rocksdb_store.cc:219-221 | on prefix-free names a flat key determines name and field |
| HashStore.KeysDifferExactly | src/common/rocksdb_store.cc:219-221 | flat keys over a set of names determine name and field if and only if no name followed by an underscore is a prefix of a different name |
| HashStore.RunRefines | src/common/rocksdb_store.cc:223-258 | after every sequence of hset and hdel the flat store holds exactly the entries of the map of maps |
| HashStore.HGetRefines | src/common/rocksdb_store.cc:236-245 | hget is the lookup in the hash |
| HashStore.HGetAllRefines | src/common/rocksdb_store.cc:299-304 | hgetall yields exactly the hash's entries, once each |
| HashStore.HLenRefines | src/common/rocksdb_store.cc:260-269 | hlen is the number of fields |
| HashStore.PrefixFreeExactly | src/common/rocksdb_store.cc:260-304 | every hlen is right after every sequence of updates if and only if the names are prefix-free |
| HashStore.RocksdbStore.HSet | src/common/rocksdb_store.cc:223-234 | one flat entry is put, and the represented map of maps is updated accordingly |
| HashStore.RocksdbStore.HDel | src/common/rocksdb_store.cc:247-258 | one flat entry is deleted, and the represented map of maps is updated accordingly |
| HashStore.RocksdbStore.HGet | src/common/rocksdb_store.cc:236-245 | the field's value, or EIO for a missing field and for a failing read alike |
| HashStore.RocksdbStore.HExists | src/common/rocksdb_store.cc:306-310 | true exactly if the flat key can be read, which is whether the hash has the field |
| HashStore.RocksdbStore.NewIterator | src/common/rocksdb_store.cc:299-304 | the iterator has exactly hgetall's entries before it |
| HashStore.RocksdbStore.HLen | src/common/rocksdb_store.cc:260-269 | the counting loop returns the number of fields |
| HashStore.HashIterator.Next | src/common/rocksdb_store.cc:290-292 | one entry is consumed |
| ScopeExit.MoveRunsOnce | include/pain/base/scope_exit.h:11-24 | a moved guard and its source run the action once together; moving preserves what a scope does exactly when the guard was not released |
| Recover.Store.Close | src/common/rocksdb_store.cc:69-84 | a close writes the live contents out, or fails and changes nothing |
| Recover.Store.OpenOrDie | src/common/rocksdb_store.cc:59-67 | opens the data directory's contents or aborts |
| Recover.Store.Unwind | src/common/rocksdb_store.cc:151-176 | the guards, last first, bring the old contents back into place and open them, leaving no backup and every other directory alone; it aborts exactly when a rename or an open fails, with the old contents still whole on disk |
| Recover.Store.MoveAside | src/common/rocksdb_store.cc:156-167 | the move succeeds exactly when a stale backup, if any, can be deleted and the rename works; the old contents stay whole either way, and every directory but data and backup is untouched |
| Recover.Store.Fetch | src/common/rocksdb_store.cc:178-203 | it succeeds exactly on a whole source that can be opened and checkpointed; then the data directory has the source's contents, otherwise the backup is untouched |
| Recover.Store.SwapIn | src/common/rocksdb_store.cc:151-216 | after the close: exactly when it succeeds and when it aborts, with the old contents back in place on an error and the source's on success; only data and backup directory change, and after a success the backup is gone exactly if it could be deleted |
| Recover.Store.Recover | src/common/rocksdb_store.cc:142-217 | all or nothing for every combination of failures: it succeeds exactly when close, move and fetch do, and the exact cases in which it aborts; old contents on an error, the checkpoint's on success unless the source is the backup path; no directory but data and backup changes, what is left of the backup in each case, and at every point the old contents, or else the new, are whole on disk |
| Recover.Store.CheckPoint | src/common/rocksdb_store.cc:86-140 | a copy of the live contents in a new directory and no other change, or EIO and none at all |
| Recover.Store.RestoreCheckpoint | src/common/rocksdb_store.cc:86-217 | exactly when a checkpoint is taken and recovered; recovery then restores the contents it was taken from, whatever was written in between, and keeps the checkpoint, unless it was taken at the backup path |
| Paths.ParsePath | src/deva/namespace.cc:55-74 | the two-pointer loop yields the slash-free segments in order, or EINVAL for a path that is not absolute |
| Paths.ComponentsOfJoined | src/deva/namespace.cc:61-72 | parsing distributes over joining with an absolute path |
| Paths.ParseOfPath | src/deva/namespace.cc:54-74 | parsing undoes slash-joining of names |
| Paths.PathOfParse | src/deva/namespace.cc:54-74 | parsing yields names, and joining them again parses the same |
| Paths.ParentAndFileName | src/deva/deva.cc:17-19 | an absolute path parses to its parent's components followed by its file name, if it does not end in a slash |
| Namespace.CreateKeepsInv | src/deva/namespace.cc:19-30 | a create with a fresh inode keeps the tree invariant |
| Namespace.RemoveKeepsInv | src/deva/namespace.cc:32-43 | a remove keeps the tree invariant |
| Namespace.RemoveExact | src/deva/namespace.cc:32-43 | a remove takes exactly the entries of that name out of one list; every other list and every directory stays |
| Namespace.WithoutInParts | src/deva/namespace.cc:39-41 | the entries that stay keep their order |
| Namespace.RunKeepsInv | src/deva/namespace.cc:10-43 | over every run with fresh inodes each inode is the target of at most one entry, the root of none, and exactly the directories have entry lists |
| Namespace.WalkInjective | src/deva/namespace.cc:76-108 | two different lists of names never lead to the same inode |
| Namespace.CreateEffect | src/deva/namespace.cc:19-30 | a create keeps the result of every walk that resolved and adds only the parent's path followed by the name |
| Namespace.RemoveEffect | src/deva/namespace.cc:32-43 | a remove makes exactly the walks through that name of that directory fail |
| NamespaceObject.NamespaceObject.Create | src/deva/namespace.cc:19-30 | ENOENT for an unknown parent, else the entry is added and a directory gets an empty list |
| NamespaceObject.NamespaceObject.Remove | src/deva/namespace.cc:32-43 | ENOENT for an unknown parent, else every entry of that name goes |
| NamespaceObject.NamespaceObject.Lookup | src/deva/namespace.cc:76-108 | the component loop returns where the walk leads, with EINVAL and ENOENT told apart |
| Deva.Process | src/deva/deva.cc:40-124 | a failed operation changes nothing; a returned file info is the one in the table; operations other than the creates succeed without effect |
| Deva.CreateExactly | src/deva/deva.cc:13-88 | CreateFile and CreateDir succeed exactly when the path's parent leads to a directory, and with which error they fail otherwise; on success the response and one new table entry are a file or a directory of size zero with the request's id and attributes, and the parent's list gains exactly that entry |
| Deva.NothingBelowFile | src/deva/deva.cc:27-29 | below a created file every create fails with EINVAL |
| Deva.ParentCanTakeEntry | src/deva/deva.cc:22-35 | once the parent lookup returned a directory, linking the name cannot fail |
| Deva.RunKeeps | src/deva/deva.cc:13-88 | over every run with fresh ids the file-info table has exactly the inodes of the namespace's entries, with their types |
| Deva.CreatedPathFindsItself | src/deva/deva.cc:13-38 | a created path looks up to its own id if and only if it does not end in a slash and led nowhere before |
| DevaObject.DevaObject.CreateAt | src/deva/deva.cc:13-38 | parent lookup, type check and linking on the objects are the model's create |
| DevaObject.DevaObject.CreateEntry | src/deva/deva.cc:40-88 | the namespace entry and the file info are created together or not at all |
| DevaObject.DevaObject.ProcessRequest | src/deva/deva.h:9-17 | each request does what the model says and keeps the invariant for a fresh id; CreateFile answers with a file's info, CreateDir with a directory's, the others with none |
| OpLog.HeaderFields | src/deva/op.h:24-30 | version, type, timestamp and size are read back from their places in the 64-byte header, and the rest is zero |
| OpLog.WireTypes | src/deva/op.h:11-22 | each operation goes on the wire under its own number, in a header of 64 bytes |
| OpLog.DecodeStops | src/deva/container_op.cc:25-42 | no type number but that of an operation other than CreateDir gets through the decoder |
| OpLog.CutOfEncoded | src/deva/op.cc:8-31 | cutting an encoding gives back type, payload and rest exactly when the payload is below 2^32 bytes |
| OpLog.DecodeOfEncoded | src/deva/container_op.cc:25-42 | decoding restores the request and consumes header and payload, for every type but CreateDir, on which it stops |
| OpLog.DirectInOrder | src/deva/rsm.cc:80-102 | applied in log order, each entry meets the state the entries before it left, and each reply is that entry's own |
| OpLog.ReplayEqualsDirect | src/deva/rsm.cc:80-102 | for every log, start state and choice of local entries, replay is direct application, and gets through exactly when no entry to decode is a CreateDir |
| OpLog.ReplicasAgree | src/deva/rsm.cc:80-102 | replicas that get through a log agree on namespace, file infos and responses |
| Rsm.EncodeOp | src/deva/op.cc:8-19 | header and payload are appended to the buffer |
| Rsm.DecodeOp | src/deva/op.cc:21-31 | header and payload are cut off the buffer and dispatched by type |
| Rsm.Replica.ApplyEntry | src/deva/container_op.h:71-91 | an entry is applied through its closure's operation or the decoded one |
| Rsm.Replica.ApplyBatch | src/deva/rsm.cc:80-102 | the loop applies the log in order; where decoding asserts it stops with exactly the entries before that one applied |
| Rsm.Replica.OnApply | src/deva/rsm.cc:80-102 | a replica ends in the state and with the replies of the operations themselves, for the whole log or up to the first CreateDir it has to decode |
| ContextStack.DetachRestores | src/base/bthread_local_context_storage.cc:23-42 | a detach restores the stack below its token, with everything attached since gone, if and only if no equal context was attached above; otherwise it cuts just below the topmost one |
| ContextStack.NestedScopesRestore | src/base/bthread_local_context_storage.cc:23-49 | well-nested attaches and detaches restore the earlier stack, equal contexts or not |
| ContextStack.DetachOutcome | src/base/bthread_local_context_storage.cc:25-31 | a detach succeeds exactly on a match, or for the default context on an empty stack; failure changes nothing |
| ContextStack.Stack.Contains | src/base/bthread_local_context_storage.cc:66-74 | whether a context on the stack matches the token |
| ContextStack.Stack.Pop | src/base/bthread_local_context_storage.cc:54-64 | the top goes; an empty stack stays empty |
| ContextStack.Stack.Resize | src/base/bthread_local_context_storage.cc:95-113 | a new array with the old elements, counted copy by copy |
| ContextStack.Stack.Push | src/base/bthread_local_context_storage.cc:86-92 | the sequence grows by one, and n pushes have caused at most 2n copies |
| ContextStack.Stack.Attach | src/base/bthread_local_context_storage.cc:45-49 | the context is on top and its token matches it |
| ContextStack.Stack.PopTo | src/base/bthread_local_context_storage.cc:34-36 | the pop loop ends at the topmost match |
| ContextStack.Stack.DetachToken | src/base/bthread_local_context_storage.cc:23-42 | the array stack does what detaching from the sequence does |
| Future.RunKeeps | include/pain/base/future.h:64-94 | every interleaving keeps the protocol's invariant; outcomes are final |
| Future.EveryRun | include/pain/base/future.h:64-94 | one assignment at most, exactly one once the promise is gone, no lost wakeup, and the getter returns what was assigned |
| Future.SingleAssignmentExactly | include/pain/base/future.h:73-78 | the state is assigned at most once if and only if set_exception is never called on a promise with an outcome |
| Future.SetThenGet | include/pain/base/future.h:64-89 | a value that was set is what a getter returns, whatever happens in between |
| Future.SetExceptionThenGet | include/pain/base/future.h:73-89 | an exception that was set is what a getter rethrows, whatever happens in between |
| Future.ExceptionReplaces | include/pain/base/future.h:73-78 | set_exception on a promise with an outcome replaces it for a later getter |
| Future.SecondValueAsserts | include/pain/base/future.h:67-67 | a second set_value asserts and changes no outcome |
| Future.DestroyedPromise | include/pain/base/future.h:240-247 | a destroyed promise leaves its outcome or the broken-promise exception, whatever comes between its two critical sections; a getter gets that, and the object has no effect any more |
| Future.MovedFrom | include/pain/base/future.h:249-252 | a move hands the state on unchanged; in every later run no event of the old object, its destruction included, has an effect |
| Future.MoveThenSet | include/pain/base/future.h:249-271 | a value set through the new object reaches the getter |
| Future.FutureState.PromiseSetValue | include/pain/base/future.h:64-71 | setting a pending value assigns and notifies; a second one asserts and changes no outcome |
| Future.FutureState.PromiseSetException | include/pain/base/future.h:73-78 | the exception is the outcome afterwards, whether or not there was one |
| Future.FutureState.MovePromise | include/pain/base/future.h:249-252 | the new object can use the state, the old one never again |
| Future.FutureState.DestroyPromise | include/pain/base/future.h:240-247 | destroying a promise leaves its own outcome, or exactly the broken-promise exception |
| Future.FutureState.TryGet | include/pain/base/future.h:80-89 | the getter returns the outcome or waits without one |

## Left out

- Networking, RPC handlers, raft itself, the command line and all main programs: plumbing over libraries.
- `Bank`: an easy map of chunks, and its load re-opens existing files with O_EXCL; a chunk is assumed not to be used after its removal.
- `AsuraServiceImpl::RegisterManusya`: its existence test does not match its message.
- Operations without a state effect yet (RemoveFile, SealFile, the chunk operations, snapshots): modelled as succeeding and changing nothing.
- `Namespace::list`: copies one entry list out.
- File attributes and directory listing of the stores: thin wrappers over the file system.
- ChunkObject.Chunk.Append: the waiting caller, the five-second delay and reference counts are not modelled; a timer step may come at any time after parking.
- ChunkObject.Chunk.Write: a short write on disk, after which the store asserts and the process ends, is an outcome of the store object but not of a run.
- StoreObjects.Store.Remove: that an open descriptor on disk outlives the name is not modelled, nor is closing descriptors.
- StoreObjects.Store.Open: flags other than O_CREAT, O_EXCL and O_TRUNC play no part; null arguments are left to the fault outcomes.
- Paths.ParsePath: paths are strings without NUL; an embedded NUL would end the path where it is passed on as a C string.
- Erasure.MarkErasures: the count of source erasures, which nothing reads, is not computed.
- HashStore.RocksdbStore.HSet: write options (no WAL, no sync) are not modelled; what a crash loses is outside the model.
- Recover.Store.CheckPoint: the list of snapshot file names is not modelled.
- GaloisField.FieldIsLawful: the library's table-driven multiplication is foreign code; the field is defined by shift and add.
- Rsm.Replica.OnApply: log indexes, which no operation uses, and closures of uncommitted operations are not modelled.
- Future.FutureState.DestroyPromise: several getters on one state and move assignment onto a pending promise are outside the protocol.
- UUID generation and text format, tracing, logging, examples other than the erasure code, build and deployment scripts.
