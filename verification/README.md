# KDNS, verified

A Dafny model of the hard parts of KDNS, an authoritative DNS server: the reverse-label radix tree and its
resolution rules, the write-ahead log and snapshots with crash recovery, the answer cache, replication, DNS name
compression, dynamic updates, type bitmaps and response rate limiting.

Every structure of the server stands for one flat thing, a `Zone`: a map from label paths to record sets. The tree,
a published tree version, a snapshot file, a log replayed over a snapshot and a replica's disk are each proved to
denote such a map, and what the server does is proved of the map.

How the files hang together:

- `Octets`, `Records`, `Names`, `Zones`, `Operations`: bytes, record sets, names as paths, the map and its mutations.
- `Tries`, `Resolution`, `QueryNames`, `AnswerMeanings`: the tree as a value, the walk of a query, and the answer as a
  function of the map, spelled out case by case.
- `RadixTree`, `Walking`: nodes on the heap with copy-on-write, and the walk that spells names in a shared buffer.
- `Codec`, `Wal`, `TornLogs`, `Snapshot`, `LogBytes`: the byte formats, both ways. `SoaRecords`, `ZoneSerials`,
  `Durability`, `Store`: serial numbers, crash recovery as a state machine, and the store's methods. `Replication`: the
  primary's generations and a replica.
- `Lru`, `LruOrder`, `CacheHits`, `AnswerCache`, `CachedState`, `ConcurrentState`: the linked LRU shards, the sharded
  cache, the cached resolver in whole calls and split at every shared access.
- `WireNames`, `Compression`, `MessageLayout`, `WritePlans`, `Packing`, `Responses`, `Messages`, `RoundTrips`,
  `TenQuestions`, `Slips`, `Unpacking`: names and messages on the wire, how much of a response fits, and what is read.
- `UpdateRules`, `DynamicUpdate`, `UpdateSections`, `UpdateNames`: UPDATE messages and their rules over a plain store.
  `SerialLifts`, `WriteOrder`, `CalmSections`, `ZoneConfinement`, `StoreUpdates`, `UpdateExamples`: the same through
  the store of the daemon, which raises serials.
- `TypeBitmaps`, `BitmapEncoders`: NSEC bitmaps. `RateLimit`: one slot of the rate limiter.

Outside functions are parameters: CRC32 is an arbitrary function of bytes, compression an arbitrary pair of which
inflating undoes deflating, the key hash of the cache an arbitrary function, and clocks are arguments. Integers are
unbounded in Dafny; the model writes out 32-bit serials, the 32-bit decay product, 16-bit counts and byte lengths.

Where the code falls short of a plain statement the code is kept, a lemma gives the failing case, and the condition
under which the statement holds is proved as an if-and-only-if:

- spellings with leading dots: `QueryNames.ExactExactly`
- names longer than the decoder takes: `WireNames.SpelledDecodes`; names that take more than ten jumps:
  `RoundTrips.UnpacksIff`, with the message `TenQuestions.PacksButDoesNotUnpack`; names with empty labels:
  `RoundTrips.NamedAsIff`
- signatures behind a cut authority section: `RoundTrips.ResponseUnpacksIff`, with the response
  `RoundTrips.SmallCutMisleads`; slips of queries with several questions: `Slips.SlipUnpacksIff`
- one-entry pages after root records: `Walking.PagesGiveListing`
- deletions without a name: `Wal.ReplayAllIff`; appending behind a torn tail: `TornLogs.AppendAfterTail`
- snapshots of long names or other classes: `Snapshot.SaveLoad`
- snapshots taken after a failed flush: `Durability.EveryCrashExactly`, with the run `Durability.FailedFlushMixes`
- generations with equal checksums and reads after the generation check: `Replication.RunInvIff`, with the runs
  `Replication.SameChecksumMixes` and `Replication.LateReadMixes`
- readers that race with a publication: `ConcurrentState.RunRightIff`, with the run `ConcurrentState.StaleAnswer`
- the order in which an update is written: `WriteOrder.OrderFreeIff`, up to serials `WriteOrder.OrderAlikeIff`, with
  the messages `UpdateExamples.SpellingsCollide` and `UpdateExamples.ApexAndBelow`
- an apex above the zone of an update: `ZoneConfinement.OnlyTheZone`, with the message `UpdateExamples.ApexAboveTouched`
- the decay that wraps around: `RateLimit.FullBudgetIff`, with the run `RateLimit.WrapKeepsTokens`

`dafny verify dfyconfig.toml` checks the project.

## Model

| member | source | states |
|---|---|---|
| `Names.DomainIterator.Next` | internal/radix/iterator.go:29-44 | hands out the labels of a text from the right, exactly as the step function NextStep does, skipping empty labels, and moves the cursor to the dot before the label |
| `Names.DomainIterator.NextLower` | internal/radix/iterator.go:49-83 | as Next, but in lower case, the same for labels that fit the 64-byte buffer and for longer ones |
| `Names.PathOfDotted` | internal/radix/iterator.go:29-44 | the path of "a.b" is the path of b followed by the path of a, for all texts, stray dots included |
| `Names.PathOfText` | internal/radix/iterator.go:49-83 | round trip: the text of a proper path iterates back to that path |
| `Names.TextInjective` | internal/radix/query.go:112-164 | two proper paths with the same text are the same path |
| `Names.HopsLower` | internal/radix/iterator.go:49-83 | a text and its lower-case form give the same labels at the same cursors |
| `Tries.ChildOfSet` | internal/radix/node.go:91-118 | setting a child changes that child and no other, on sorted edges |
| `Tries.PutDenotes` | internal/radix/mutate.go:16-76 | storing records at a path turns a tree that denotes a map into one that denotes the updated map |
| `Tries.RemoveDenotes` | internal/radix/mutate.go:131-182 | removing a path, pruning bare nodes on the way up, gives a tree that denotes the map without it |
| `Tries.PutWF` | internal/radix/mutate.go:16-76 | insertion keeps edges strictly sorted and leaves no node without records and descendants |
| `Tries.RemoveWF` | internal/radix/mutate.go:131-182 | deletion keeps edges strictly sorted and prunes every node without records and descendants |
| `Tries.NodeExistsIff` | internal/radix/mutate.go:131-182 | a node exists exactly at the root and at the prefixes of stored names |
| `Resolution.ResolveIsSpec` | internal/radix/resolve.go:14-165 | for every well-formed tree, every text and every type the walk answers exactly what the flat map alone determines: topmost zone cut (except DS at the exact name), else the exact or empty non-terminal name, else the deepest wildcard passed, with the deepest SOA as authority |
| `AnswerMeanings.ResolveAnswers` | internal/radix/resolve.go:14-165 | what the stored map alone says of the answer to any name and type: below the first delegation on the way down its NS set and name; else of the records at the name, or at the deepest wildcard passed, the set of the type or a CNAME; else success without an answer or NXDOMAIN, with the deepest SOA above as authority; and which fields are empty |
| `AnswerMeanings.NameErrorIff` | internal/radix/resolve.go:52-76 | the code is NXDOMAIN if and only if no delegation lies on the way, nothing is stored at or below the name and no wildcard with records stands in for it |
| `Resolution.DescendIsSpec` | internal/radix/resolve.go:32-76 | the same from any node on the way down, with the wildcard and authority gathered so far |
| `Resolution.EvaluateMeans` | internal/radix/resolve.go:80-106 | what one visited node does to the walk: a cut stops it with a referral, an SOA becomes the authority |
| `Resolution.ResolveAt` | internal/radix/resolve.go:122-151 | an answer is one of the records at the name and comes without authority; otherwise the answer is empty |
| `QueryNames.CaseNeverMatters` | internal/radix/resolve.go:14-76 | spellings that differ in letter case have the same answer, code and authority records, and authority names that differ in case at most |
| `QueryNames.ExactExactly` | internal/radix/resolve.go:80-106 | the cursor test recognises the queried name itself exactly for texts without a leading dot, or with a single one before a label, and never an ancestor |
| `QueryNames.RootDotIsReferred` | internal/radix/resolve.go:80-106 | the failing case: a DS query spelled "." gets a referral at a delegated root, the same query spelled "" does not |
| `RadixTree.Node.Clone` | internal/radix/node.go:27-35 | a new node and a new edge array with the same contents |
| `RadixTree.FindEdge` | internal/radix/node.go:91-118 | linear and binary search find the position where the label is or belongs in sorted edges |
| `RadixTree.FindNode` | internal/radix/node.go:59-86 | the node of the name, or null when the tree has none |
| `RadixTree.CopyChild` | internal/radix/mutate.go:33-66 | copies or creates the child under a label and hooks it into a node the writer owns, writing to nothing else |
| `RadixTree.UpsertPath` | internal/radix/mutate.go:16-76 | copies the nodes along the name, only ever writing to nodes and arrays allocated here; the new root represents the updated tree, and it reports whether the name was empty before |
| `RadixTree.DeletePath` | internal/radix/mutate.go:131-182 | rebuilds the path bottom-up without the name, with pruning, writing only to new nodes |
| `RadixTree.Tree.Upsert` | internal/radix/mutate.go:16-76 | the tree denotes the updated map, the counter its size, and every version published before still denotes what it did; no records means deletion |
| `RadixTree.Tree.DeleteDomain` | internal/radix/mutate.go:80-105 | the tree denotes the map without the name, with the same promise for earlier versions |
| `RadixTree.Tree.Get` | internal/radix/query.go:16-51 | finds a name exactly when the map has it, with its records |
| `RadixTree.Tree.Len` | internal/radix/tree.go:46-52 | the number of stored names |
| `RadixTree.Tree.Resolve` | internal/radix/resolve.go:14-76 | the loop over nodes returns the answer that the stored map determines, case by case as AnswerMeanings.ResolveAnswers spells it out: code, answering set, authority and its name |
| `RadixTree.ResolveFrom` | internal/radix/resolve.go:14-76 | the loop over one root agrees with the walk on tree values |
| `RadixTree.ReadVersion` | internal/radix/resolve.go:14-20 | a reader holding any root published so far answers from that version, whatever was written since |
| `Walking.WriteLabel` | internal/radix/query.go:126-150 | puts a label and a dot in front of the name in the shared buffer, or finds that it does not fit |
| `Walking.WalkFrom` | internal/radix/query.go:112-164 | visits the node and everything below in order, feeding each name spelled in the shared buffer, and leaves the buffer as it was |
| `Walking.PlacesExact` | internal/radix/query.go:112-164 | exactly the nodes whose names fit the 256-byte buffer are visited |
| `Walking.PlacesDistinct` | internal/radix/query.go:112-164 | no node is visited twice |
| `Walking.ListingExact` | internal/radix/query.go:54-108 | an entry is listed exactly when the map stores it and its name fits |
| `Walking.ListingDistinct` | internal/radix/query.go:54-108 | no name is listed twice |
| `Walking.Seek` | internal/radix/query.go:78-108 | the page after a name: the entries visited after it up to the limit, and whether more follow |
| `Walking.SeekResumes` | internal/radix/query.go:78-108 | seeking after a listed name other than the root yields exactly the rest of the listing |
| `Walking.PagesGiveListing` | internal/api/handlers.go:26-52 | reading page after page gives the whole listing if and only if pages hold more than one entry, the root has no records, or there is at most one entry |
| `Codec.WriteRecord` | internal/codec/codec.go:127-173 | writes the encoding of the record exactly when it is within the codec limits, and nothing otherwise |
| `Codec.CalculateFrameSize` | internal/codec/codec.go:176-202 | the size of the encoding, refused exactly when a limit or 10 MiB is passed |
| `Codec.ReadRecordAgrees` | internal/codec/codec.go:205-309 | decoding at any offset of any byte string that agrees with an encoding so far gives the record in class IN, or end of file when the bytes stop short |
| `Wal.Writer.AppendUpsert` | internal/wal/wal.go:85-106 | appends one frame exactly when the record is within limits; a refusal by the encoder leaves the opcode behind |
| `Wal.Writer.AppendDelete` | internal/wal/wal.go:109-133 | appends one deletion frame when the name fits, else nothing |
| `Wal.DecodeFrame` | internal/wal/wal.go:160-233 | reads one frame: its operation, a truncated tail, or corruption; LogBytes.ReplayIff says which bytes those are |
| `Wal.DecodeRecord` | internal/codec/codec.go:205-237 | the reading loops deliver what the decoding function says |
| `Wal.ReplayLog` | internal/wal/wal.go:160-256 | delivers every operation up to the end or the first bad frame, and says which it was |
| `Wal.WholeIsMost` | internal/wal/wal.go:160-194 | the counted frames fit within the cut, and one more would not |
| `Wal.CutReplay` | internal/wal/wal.go:160-256 | replaying the first k bytes of a log delivers exactly the operations whose frames lie within k, and ends clean at a frame boundary and truncated elsewhere |
| `Wal.ReplayAllIff` | internal/wal/wal.go:109-133 | a log of accepted operations replays in full if and only if no deletion in it has an empty name |
| `LogBytes.WrongSumIff` | internal/wal/wal.go:160-233 | for every byte string: a frame within the limits is read as its operation if and only if the four bytes behind it are the checksum of its bytes, and is corrupted otherwise |
| `LogBytes.ReplayFound` | internal/wal/wal.go:160-256 | for every byte string: what replay delivers are frames that lie there one after another with the right sums, and it stops clean at the end, at a byte that is no opcode, or at a frame that is cut off, over a limit or has a wrong sum |
| `LogBytes.ReplayIff` | internal/wal/wal.go:160-256 | a byte string replays to a run of operations and ends clean if and only if it is their frames, byte for byte |
| `LogBytes.OverLimitCorrupts` | internal/codec/codec.go:205-309 | a frame whose record is over a codec limit is corrupted whatever its sum |
| `LogBytes.ReadsRecordIff` | internal/codec/codec.go:205-309 | a record is read between two offsets if and only if its encoding lies there and it is within the limits |
| `Snapshot.Save` | internal/snapshot/snapshot.go:94-163 | writes header, compressed listing and checksum exactly when the count, every record and the body are within limits |
| `Snapshot.LoadBody` | internal/snapshot/snapshot.go:167-255 | of a well-formed file Load delivers what the inflated body holds |
| `Snapshot.ListingCount` | internal/radix/tree.go:46-52 | the tree counter equals the number of listed names if and only if every stored name fits the walk buffer |
| `Snapshot.RebuildListing` | internal/snapshot/snapshot.go:167-218 | storing the listed records again rebuilds the map, in class IN |
| `Snapshot.SaveLoad` | internal/snapshot/snapshot.go:94-218 | loading what was saved restores the map if and only if every name fits the walk buffer and every set is class IN |
| `LogBytes.LoadIff` | internal/snapshot/snapshot.go:167-255 | for every byte string: loading delivers a list of records if and only if header, compressed records and checksum of the body are laid out as the format says |
| `Operations.ApplyAllAt` | internal/store/compact.go:199-248 | after a run of operations a name has the records of the last operation on it, and what it had when there was none |
| `Operations.ReplayIdempotent` | internal/store/compact.go:199-248 | replaying a run a second time changes nothing |
| `SoaRecords.IncrementSoaSerial` | internal/store/batch.go:216-230 | the data with its serial raised, of the same length; data too short is returned as it is |
| `SoaRecords.SerialPlusOne` | internal/store/batch.go:216-230 | of data the SOA writer produced, the decoded serial goes up by one modulo 2^32 and the other six fields are equal |
| `SoaRecords.WriteSoa` | internal/dns/rdata.go:341-379 | writes two names, the second compressed against the first, and the five timers; a refusal is due to a name or the room left |
| `SoaRecords.SoaRoundTrip` | internal/dns/rdata.go:136-153 | written data reads back: all timers, and the names up to case exactly when they fit the decoder |
| `SoaRecords.DecodeExtends` | internal/dns/unpack.go:263-342 | bytes after a spelled name do not change how it decodes |
| `ZoneSerials.RaiseSerial` | internal/store/batch.go:183-207 | raises the first SOA set with data, and tells whether there is one |
| `ZoneSerials.RaisedSets` | internal/store/batch.go:198-207 | among the sets of an apex only the first SOA datum changes, and in it only the serial |
| `AnswerMeanings.FormatPath` | internal/radix/resolve.go:109-118 | the text of a position of the walk denotes exactly the path walked so far |
| `ZoneSerials.ExpansionExactly` | internal/store/batch.go:183-214 | a mutation without its own SOA raises a serial if and only if the map has an enclosing apex: no delegation above, no SOA or CNAME answering for the name, and data at the deepest SOA; it raises that apex alone and first |
| `ZoneSerials.ApexFound` | internal/store/batch.go:248-256 | which name the search for an apex gives: a delegation, the name itself, the deepest apex above it, or none |
| `ZoneSerials.OnlyTwoNames` | internal/store/batch.go:161-214 | the map changes at the mutated name and the raised apex and nowhere else |
| `ZoneSerials.NameAfter` | internal/store/batch.go:161-181 | the mutated name ends with exactly the given records, their own serial raised, or gone |
| `Store.Store.Write` | internal/store/batch.go:161-181 | one change reaches the tree exactly when the log took it, the log first |
| `Store.Store.ApexChange` | internal/store/batch.go:188-212 | finds the apex change that precedes a mutation, if there is one |
| `Store.Store.ApplyOperation` | internal/store/batch.go:150-214 | log and tree receive the same changes in the same order; on a refusal both stop after the changes accepted so far |
| `Store.Store.ApplyBatch` | internal/store/batch.go:101-119 | operations are applied until one is refused; what tree and log hold then |
| `Store.Store.CommitBatch` | internal/store/batch.go:92-148 | of any batch, tree and log hold its changes up to the first refused one; a mutation is answered with success exactly when the flush goes through and the log took all changes up to its own; of a recoverable store and changes within the log limits the store stays recoverable with every change answered, or, when the flush fails, with an unanswered tail |
| `Store.Store.Checkpoint` | internal/store/compact.go:135-166 | the snapshot in place loads to the map in memory, and the store is recoverable with the log still there |
| `Store.Store.ResetLog` | internal/store/compact.go:50-57 | an empty log takes over once the snapshot holds everything |
| `Store.Store.Compact` | internal/store/compact.go:30-60 | the map is unchanged and the store recoverable at every point; it fails exactly when the snapshot cannot be written |
| `Store.Store.ReloadFromDisk` | internal/store/store.go:461-480 | reading snapshot and log into a new tree gives the map that was in memory |
| `Store.LoadTree` | internal/store/store.go:169-196 | what a directory opens to: refused without a snapshot but with a log, else the snapshot followed by every whole frame |
| `Durability.EveryCrashRecovers` | internal/store/batch.go:92-181 | in every run from a new directory, a crash at any point and any cut of the unsynced bytes recovers the map after the first n changes, n counting every answered one, and the whole map when nothing was unflushed; never refused as unclean. Asked of the run: snapshots are taken with the log flushed |
| `Durability.BootstrapInit` | internal/store/store.go:373-403 | a map saved as the first snapshot, before a log exists, is a state runs start from |
| `Durability.LockSuffices` | internal/store/compact.go:30-60 | as long as no flush fails the lock makes every snapshot a flushed one |
| `Durability.CrashRecovers` | internal/store/store.go:167-200 | the same for any state that satisfies the invariant, with the exact number of surviving changes |
| `Durability.EveryCrashExactly` | internal/store/compact.go:30-57 | in every run, failed flushes, snapshots taken after them and restarts included, recovery never fails; it gives the map after the surviving changes when they reach the snapshot, and otherwise the map of the snapshot if and only if each name the surviving log changes ends there as the snapshot has it; and it gives the map after the first n changes if and only if the two agree path by path |
| `Durability.ReplayGivesIff` | internal/store/compact.go:199-248 | replaying a log over a map gives a given map if and only if each path has there what the log leaves, or, untouched, what the map had |
| `Durability.ReplayNeutralIff` | internal/store/compact.go:199-248 | replaying a log over a map changes nothing if and only if each name the log changes ends as the map has it |
| `Durability.StepHeld` | internal/store/compact.go:30-82 | each step keeps what snapshot and log hold, whether or not the last flush succeeded |
| `Durability.StepInv` | internal/store/compact.go:30-82 | append, flush, failed flush, snapshot, truncation, reload and restart each keep the invariant |
| `Durability.PrefixAbsorbed` | internal/store/compact.go:38-57 | a snapshot that already has the first changes of a log is not harmed by replaying the log over it |
| `Durability.SaveInv` | internal/store/compact.go:135-166 | a snapshot of a reachable map always loads back to it |
| `Durability.QuietRecovers` | internal/store/store.go:461-480 | with nothing pending the recovered map is the one in memory |
| `Durability.ReloadUnchanged` | internal/store/store.go:461-480 | reloading from disk leaves the state as it was |
| `Durability.NeverUnclean` | internal/store/store.go:179-181 | a log without a snapshot never exists, and a directory without a log opens |
| `Durability.FailedFlushMixes` | internal/store/compact.go:36-46 | the failing case as a run from a new directory: one change flushed, a failed flush of two more, a snapshot and a crash; recovery gives a map memory never held |
| `TornLogs.AppendAfterTail` | internal/store/store.go:308-316 | a log to which frames were appended behind left-over bytes replays to all operations and a clean end if and only if there are no left-over bytes, for every such tail |
| `TornLogs.CleanFills` | internal/wal/wal.go:160-256 | a log that replays to a clean end is exactly as long as the frames of what it delivers |
| `Durability.TornTailSpoilsLog` | internal/store/store.go:308-316 | the failing case: a directory with one torn byte recovers, and after one more deletion is refused |
| `Replication.RunInvIff` | internal/cluster/replica/sync.go:30-143 | in every run of mutations, compactions, handshakes, reads, late reads, downloads, disconnects and crashes, the replica is on some generation throughout if and only if every handshake meets its own generation and every late read delivers bytes that generation has there |
| `Replication.ReplicaPassesThrough` | internal/cluster/replica/sync.go:30-143 | in every such run the replica holds some generation snapshot and a byte prefix of that generation log, so it recovers a map the primary passed through |
| `Replication.HandshakeExactly` | internal/cluster/hub/stream.go:94-140 | a handshake whose checksum matches leaves the replica on a generation if and only if its snapshot and log are those of the current one |
| `Replication.LateReadExactly` | internal/cluster/hub/stream.go:154-188 | a read after the generation check leaves the replica on a generation if and only if the bytes read are the ones its own log has there |
| `Replication.TellingSuffices` | internal/cluster/hub/server.go:169-174 | checksums that tell snapshots apart and reads made with the check meet the condition in every run |
| `Replication.ReplicaRecovers` | internal/cluster/replica/sync.go:153-240 | what it recovers is the map after the whole frames of its prefix |
| `Replication.StepFollows` | internal/cluster/hub/stream.go:94-215 | mutation, compaction, handshake, receipt, disconnect and replica crash keep the replica on its generation |
| `Replication.DownloadFollows` | internal/cluster/replica/sync.go:153-240 | a download puts it on the current generation with an empty log |
| `Replication.StepInv` | internal/cluster/hub/server.go:169-174 | every step keeps the invariant if and only if it meets the condition |
| `Replication.StartInv` | internal/cluster/replica/sync.go:34-40 | a replica with an empty disk beside a primary at its first generation satisfies the invariant |
| `Replication.SameChecksumMixes` | internal/cluster/replica/sync.go:79-93 | a failing run from the start: a generation that cancels out and one with the same snapshot let a replica in at an offset of the wrong log, and it recovers a map the primary never held |
| `Replication.LateReadMixes` | internal/cluster/hub/stream.go:154-188 | a failing run from the start with checksums that tell: compaction and appends between the generation check and the read |
| `Lru.Unlink` | internal/cache/cache.go:80-86 | takes an entry out of a list that is well linked in both directions, leaves the rest well linked and the entry without neighbours |
| `Lru.LinkFront` | internal/cache/cache.go:90-96 | links an entry right behind the head and keeps the list well linked |
| `Lru.Shard.Get` | internal/cache/cache.go:208-232 | returns a value if and only if an unexpired item of the key is held, and that value; a hit moves to the front, an expired entry is dropped, over a list well linked in both directions whose entries are exactly those of the map |
| `Lru.Shard.Set` | internal/cache/cache.go:148-192 | an update or a new key goes to the front; at capacity the last entry is recycled; a duration that is not positive deletes |
| `Lru.Shard.Recycle` | internal/cache/cache.go:166-178 | the least recent entry leaves the map and returns at the front with the new key |
| `Lru.Shard.Delete` | internal/cache/cache.go:236-246 | removes the key from list and map, or nothing |
| `Lru.Shard.Clear` | internal/cache/cache.go:250-259 | empties list and map |
| `LruOrder.RunSound` | internal/cache/cache.go:148-259 | in any run of stores, reads, deletions and clearings a shard is bounded, holds no key twice, and holds only the latest item stored under a key since |
| `LruOrder.ReadsLatest` | internal/cache/cache.go:208-232 | a read returns the latest stored value of its key and never one past its expiry |
| `CacheHits.ReadExactly` | internal/cache/cache.go:208-232 | in any run a read returns a value if and only if an unexpired item of its key is held, and then the value last stored; it drops nothing but the expired item of its key |
| `CacheHits.FoundUntilExpiry` | internal/cache/cache.go:148-232 | in any run, an item stored and not stored over, dropped, cleared or read past its expiry since is found exactly until its expiry while fewer than capacity other keys were used |
| `CacheHits.GoneUntilStored` | internal/cache/cache.go:236-259 | after a deletion or a clearing a key is not found until it is stored again |
| `CacheHits.HeldIff` | internal/cache/cache.go:148-232 | while nothing is deleted or expires, a key is held if and only if fewer than capacity other keys were used since |
| `LruOrder.RunInOrder` | internal/cache/cache.go:148-259 | in any run, with deletions, expiry and clearing, the keys held are in order of last use |
| `LruOrder.EvictsLeastRecent` | internal/cache/cache.go:166-178 | in any run, what makes room for a new key is the held key used longest ago, and nothing else leaves |
| `LruOrder.KeepsMostRecent` | internal/cache/cache.go:148-232 | while nothing is deleted or expires, a shard holds exactly the most recently used distinct keys that fit, in order of use |
| `AnswerCache.Cache.constructor` | internal/cache/cache.go:110-128 | 256 empty shards of equal capacity, at least one |
| `AnswerCache.Cache.Get` | internal/cache/cache.go:208-232 | acts on the one shard the key routes to and leaves the others as they were; returns a value if and only if that shard holds an unexpired item of the key |
| `AnswerCache.Cache.Set` | internal/cache/cache.go:148-192 | acts on the one shard the key routes to and leaves the others as they were |
| `AnswerCache.Cache.Delete` | internal/cache/cache.go:236-246 | acts on the one shard the key routes to and leaves the others as they were |
| `AnswerCache.Cache.Clear` | internal/cache/cache.go:250-259 | every shard is empty |
| `CachedState.ToLowerAscii` | internal/state/resolve.go:41-62 | lower-cases ASCII letters |
| `CachedState.RightForAllSpellings` | internal/state/resolve.go:16-26 | a value is the answer of the lower-cased key exactly when it is the answer of the name as spelled |
| `CachedState.State.Resolve` | internal/state/resolve.go:16-39 | whatever the cache held, the answer is exactly what the current map determines, for any letter case; a hit does not move the expiry of its key, and a miss is remembered for the time to live of the answer if and only if it is positive with a time above zero |
| `CachedState.State.Update` | internal/state/state.go:100-107 | the map is updated by the batch and nothing stays cached |
| `CachedState.State.Swap` | internal/state/state.go:90-97 | the new tree is in place and nothing stays cached |
| `ConcurrentState.EveryAnswerWasGiven` | internal/state/resolve.go:16-39 | with lookups, loads, stores, publications and shard clearings interleaved in any way, every answer is one that some published version gave |
| `ConcurrentState.StepHonest` | internal/state/state.go:90-107 | every single step keeps that promise |
| `ConcurrentState.HeldAfter` | internal/state/resolve.go:28-39 | the cache changes by a finished lookup at its own key, an eviction and a clearing, and by nothing else |
| `ConcurrentState.RunRightIff` | internal/state/resolve.go:16-39 | through any run, the cleared part of the cache holds answers of the current version if and only if every store under a cleared key is one the current version would give, or is not cached at all |
| `ConcurrentState.FinishExactly` | internal/state/resolve.go:28-39 | the same for one store: what is cleared stays right if and only if the loaded version answers as the current one, or its answer is not cached |
| `ConcurrentState.FreshRun` | internal/state/state.go:100-107 | from a state without outdated readers on, through every run without a publication, every answer to a cleared key, cached or resolved, is the one of the current version |
| `ConcurrentState.QuietHits` | internal/state/state.go:90-107 | once clearing is over every key is a cleared one |
| `ConcurrentState.PublishFresh` | internal/state/state.go:100-107 | a publication made while no reader has a version loaded starts fresh |
| `ConcurrentState.StepFresh` | internal/state/state.go:100-107 | freshness lasts until the next publication, and each step answers cleared keys with the current version |
| `ConcurrentState.StaleAnswer` | internal/state/resolve.go:32-36 | the failing case: a run from start to a quiet state that answers from a replaced version |
| `WireNames.DecodeName` | internal/dns/unpack.go:263-342 | the loop ends by jumps left and name bytes left, stays in bounds for every input and offset, and returns what the decoding function says |
| `WireNames.SkipDomainName` | internal/store/batch.go:232-246 | the loop returns the skip function of the bytes |
| `WireNames.SkipAgrees` | internal/store/batch.go:232-246 | whenever the decoder accepts a name, skipping it ends at the same offset |
| `WireNames.SpelledDecodes` | internal/dns/unpack.go:263-342 | a spelled name decodes to its labels up to case and ends where the spelling does if and only if its text fits 255 bytes |
| `Compression.FoldEqual` | internal/dns/pack.go:380-397 | equality of ASCII text up to case |
| `Compression.LookupSuffix` | internal/dns/pack.go:353-363 | the offset of the first table entry with the suffix up to case |
| `Compression.InsertSuffix` | internal/dns/pack.go:365-378 | adds a suffix unless the table is full, the offset too large or the suffix known |
| `Compression.TextOfLabelsIff` | internal/dns/pack.go:290-344 | the labels of a text joined again give the text, up to case and a closing dot, if and only if none of them is empty |
| `Packing.PacketWriter.WriteDomain` | internal/dns/pack.go:290-344 | the bytes written spell the name with one more jump than the table needs, offset and table end exactly where WritePlans.NameAfter says, and a known name is one pointer to its first spelling; refused for length if and only if it is over 255 bytes, for room only when its end lies beyond the limit, or for a label over 63 bytes |
| `Packing.PacketWriter.WriteRecord` | internal/dns/pack.go:163-199 | one record with its owner name, or, if and only if it ends beyond the limit, the cut back to where it began with TC set; every suffix entered before stays spelled |
| `Packing.PacketWriter.WriteRRSet` | internal/dns/pack.go:163-199 | as many records of a set as fit and their number, in order, at most 65535 of them; TC if and only if some are left out |
| `Packing.PacketWriter.WriteQuestion` | internal/dns/pack.go:150-161 | the question is spelled at its offset and ends where the plan says |
| `Packing.PacketWriter.WriteEDNS0` | internal/dns/pack.go:212-234 | the OPT record when it is wanted and fits |
| `Packing.PacketWriter.UpdateCounts` | internal/dns/pack.go:206-210 | sets the three section counts and nothing else |
| `Messages.PackResponse` | internal/dns/pack.go:39-120 | for every buffer and maxSize: the flag bits of the two bytes in the buffer; TC if and only if the whole response ends beyond the limit; header, counts, questions and of every set exactly the records that fit, each spelled right, and OPT if and only if wanted and fitting, unless a pointer leads to itself; too many questions and a short buffer if and only if that is so, and every other error has its cause in a name or the room for the questions |
| `WritePlans.FitIsMost` | internal/dns/pack.go:163-199 | the number of records written is the greatest that ends within the limit |
| `WritePlans.AfterCovers` | internal/dns/pack.go:290-378 | after a name is written it can be pointed to unless the table is full or the offset too large, a name already covered adds nothing, and any other enters its whole text first |
| `WritePlans.KnownFit` | internal/dns/pack.go:304-330 | records under a known name take the same room whatever else the table holds |
| `Responses.FlagsMean` | internal/dns/pack.go:51-55 | the two flag bytes, bit by bit: QR, the opcode and RD of the query, AA except on a referral, TC as given, the response code and no other bit |
| `Responses.SectionsMean` | internal/dns/pack.go:64-120 | which records each section holds, in order: answers and additionals only with code 0 and under the first question, authorities with any code under their own name, signatures only on request, nothing without a question |
| `Responses.OptMeans` | internal/dns/pack.go:212-234 | the OPT record has size 4096, the DO bit of the query and the upper part of the code |
| `Responses.FitsAllIff` | internal/dns/pack.go:57-93 | nothing is left out if and only if the whole response ends within the limit |
| `Responses.FullWithin` | internal/dns/pack.go:39-93 | the end of the response without compression bounds its end with it |
| `RoundTrips.ResponseUnpacksIff` | internal/dns/unpack.go:80-119 | with fewer than ten questions every response PackResponse makes, cut or not, unpacks if and only if no pointer of it leads to itself; then to the same questions, the records that fit, and TC exactly when something was left out |
| `RoundTrips.SmallCutMisleads` | internal/dns/pack.go:100-120 | the failing case: with one question, DO and 60 bytes, an authority record under a new name is cut off and its signature is written as a pointer to itself |
| `RoundTrips.CircularFails` | internal/dns/unpack.go:284-300 | a message with such a pointer does not unpack |
| `Slips.TruncateToSlip` | internal/dns/pack.go:415-452 | the buffer gets TC and empty counts and nothing else changes; the length is the end of the first question, or of the header when there is none, and the buffer is left alone when the lengths make no sense |
| `Slips.SlipUnpacksIff` | internal/dns/pack.go:408-452 | the slip of any response PackResponse makes unpacks if and only if the query had at most one question, for only the first is kept while all stay counted; then to that question, with TC, no records and no EDNS |
| `Messages.PackedUnpacks` | internal/dns/unpack.go:80-119 | a message, cut or not, whose names take at most ten jumps unpacks to the same questions up to case, identifier and flags, counts equal to the records present and the EDNS settings |
| `RoundTrips.UnpacksIff` | internal/dns/unpack.go:80-119 | a message laid out by PackResponse, cut or not, unpacks if and only if none of its names takes more than ten jumps |
| `RoundTrips.FewQuestionsUnpack` | internal/dns/unpack.go:80-119 | with fewer than ten questions it always does |
| `TenQuestions.PacksButDoesNotUnpack` | internal/dns/unpack.go:284-300 | the failing case: ten questions each one label below the one before, with two records one label below the tenth, laid out as packed; the last owner takes eleven jumps and Unpack refuses the message |
| `RoundTrips.PackedRecordsRead` | internal/dns/unpack.go:175-188 | the i-th record found by skipping i records has the owner of the i-th record packed, by the decoder and up to case, with its fixed fields and data byte for byte behind it |
| `RoundTrips.NamedAsIff` | internal/dns/unpack.go:263-342 | what an owner or question name reads back as is the name itself, up to case and a closing dot, if and only if it has no empty label |
| `Messages.UnpackMessage` | internal/dns/unpack.go:80-228 | the parsing loops return what the reading functions say, which Unpacking.UnpackExactly characterises |
| `Unpacking.UnpackExactly` | internal/dns/unpack.go:80-228 | for every byte string: it unpacks if and only if at most ten questions and the counted records lie behind the header, each a name spelled with at most ten jumps, its fixed fields and its data, no question of type OPT and at most one additional record; then to those questions and the settings of that OPT |
| `Unpacking.SkipsIff` | internal/dns/unpack.go:175-188 | records are skipped to an offset if and only if that many lie there |
| `Unpacking.AdditionalIff` | internal/dns/unpack.go:190-228 | the additional section reads if and only if its records lie there with at most one OPT, and gives its settings |
| `MessageLayout.ReadsQuestion` | internal/dns/unpack.go:149-173 | a spelled question reads back as itself up to case, ending where it ends |
| `MessageLayout.SkipsRecords` | internal/dns/unpack.go:175-188 | skipping as many records as are there ends exactly behind them |
| `MessageLayout.ReadsAdditional` | internal/dns/unpack.go:190-228 | the additional section yields the settings of its OPT record |
| `UpdateRules.UpdateMeans` | internal/rfc2136/update.go:252-306 | each operation keeps types unique and data free of repeats and does to types, times and sets of data what section 3.4.2 of RFC 2136 asks |
| `UpdateRules.UpdateEffect` | internal/rfc2136/update.go:252-306 | the five cases by the numbers of class and type, the time and the data: a new set at the end or the first of its type with the new time and the datum once at its end; all sets of a type gone; everything gone; one datum gone from its type; or nothing, and all other sets as they were |
| `UpdateRules.FoldMeans` | internal/rfc2136/update.go:154-187 | the same for all operations on a name in their order |
| `UpdateRules.PrerequisiteMeans` | internal/rfc2136/update.go:196-245 | searching the stored sets for a type and a datum decides exactly whether a prerequisite holds of what the name means |
| `UpdateRules.PrerequisiteDecided` | internal/rfc2136/update.go:196-245 | the five prerequisites by the numbers of class and type, each with its code: the name has records, or none, or has a type, or lacks it, or the first set of the type has the datum; everything else is a format error |
| `UpdateRules.PrerequisitesMean` | internal/rfc2136/update.go:144-151 | a section succeeds if and only if every prerequisite is well formed and holds, and otherwise has the code of the first that fails |
| `DynamicUpdate.ApplyUpdateOp` | internal/rfc2136/update.go:252-306 | one operation on a slice of sets, writing to that slice or a new one only, with the effect UpdateRules.UpdateEffect spells out |
| `DynamicUpdate.Compute` | internal/rfc2136/update.go:158-171 | the pending sets of each name touched are at the fold of its operations, in slices of their own; nothing stored is written to |
| `DynamicUpdate.Commit` | internal/rfc2136/update.go:173-184 | writes the pending sets in any order of names, deleting names left without sets |
| `DynamicUpdate.ApplyUpdates` | internal/rfc2136/update.go:154-187 | the store ends at the in-order fold of the operations for named names and as it was elsewhere, whatever the order of writing; no stored slice has changed |
| `DynamicUpdate.CheckPrerequisites` | internal/rfc2136/update.go:144-151 | success if and only if every prerequisite is well formed and holds of the store, else the code of the first that does not |
| `DynamicUpdate.EvaluatePrerequisite` | internal/rfc2136/update.go:196-245 | success if and only if the prerequisite is well formed and holds of what the name means; a format error if and only if it is malformed; and otherwise the code that belongs to its kind, as UpdateRules.PrerequisiteDecided spells out |
| `DynamicUpdate.ParseRecords` | internal/rfc2136/update.go:129-141 | the loop delivers the section that UpdateSections.ReadsSectionIff characterises |
| `UpdateSections.ReadsSectionIff` | internal/rfc2136/update.go:129-141 | a section of n records is read if and only if n records are laid out one after another, each a name in any case and compression, fixed fields and data, and gives their canonical names, fields and data in order |
| `UpdateSections.ReadsZoneIff` | internal/rfc2136/update.go:101-126 | the zone section is read if and only if exactly one entry is laid out, a spelled name with type SOA and class IN, and gives its name lower-cased, trimmed and closed by a dot |
| `UpdateSections.ReadsNameIff` | internal/dns/unpack.go:263-342 | the decoder accepts exactly the names spelled with at most ten jumps and 255 bytes, reads their labels up to case and ends where they end |
| `UpdateSections.MessageSucceedsIff` | internal/rfc2136/update.go:44-97 | a laid-out UPDATE succeeds if and only if the zone is served, all its records lie in the zone and every prerequisite holds; what is then carried out is its update section |
| `UpdateSections.OnlyMessagesSucceed` | internal/rfc2136/update.go:44-97 | nothing but a laid-out UPDATE succeeds |
| `DynamicUpdate.Process` | internal/rfc2136/update.go:44-97 | over a store of slices without serials: any code but NOERROR leaves the store as it was; NOERROR leaves it exactly at the fold of the update section; no stored slice is ever written to |
| `StoreUpdates.Process` | internal/rfc2136/update.go:44-97 | over the store of the daemon: a refused message changes neither tree nor log; otherwise the pending names are written through the store in some order, all of them with NOERROR, or with SERVFAIL up to the first write that is refused or whose flush fails, of which the changes before the refused one remain; and a recoverable store stays recoverable |
| `StoreUpdates.WriteAll` | internal/rfc2136/update.go:173-184 | writes name by name, each committed on its own, and stops at the first failure |
| `StoreUpdates.ComputeFrom` | internal/rfc2136/update.go:158-171 | the pending sets of each name touched, at the fold of its operations over what the tree has |
| `StoreUpdates.CheckAgainst` | internal/rfc2136/update.go:144-151 | the code of the first prerequisite that does not hold of the tree |
| `DynamicUpdate.UpdatedMeans` | internal/rfc2136/update.go:154-187 | a tidy store stays tidy and every name means what the rules make of it |
| `UpdateNames.CanonicalStays` | internal/rfc2136/update.go:370-379 | making a canonical name canonical changes nothing |
| `UpdateNames.CanonicalExactly` | internal/rfc2136/update.go:370-379 | the canonical form of a name with any blanks around it is the name in lower case with one dot at its end |
| `UpdateNames.InZoneIsBelow` | internal/rfc2136/update.go:361-368 | a name the zone test lets in lies at or below the zone in the tree |
| `UpdateNames.InZoneExactly` | internal/rfc2136/update.go:361-368 | for canonical spellings the test holds exactly of the names at or below the zone |
| `UpdateNames.PlainStoreConfined` | internal/rfc2136/update.go:74-85 | a successful update of a store without serials leaves every name outside its zone as it was |
| `ZoneConfinement.OnlyTheZone` | internal/rfc2136/update.go:74-85 | a successful update, its names written through the store in any order, leaves every path outside its zone as it was, except the serial of the deepest apex above the zone name, which is lifted if and only if one of the writes raises it, and once for each that does |
| `ZoneConfinement.OutsideZone` | internal/store/batch.go:183-214 | the same for any mutations at or below a name, with the exact condition for a path outside to be unchanged |
| `ZoneConfinement.KeptSoaConfines` | internal/store/batch.go:183-214 | as long as the zone name has an SOA and the writes leave it one, nothing outside the zone changes |
| `UpdateExamples.ApexAboveTouched` | internal/rfc2136/update.go:59-62 | the failing case, as message bytes: an UPDATE of a zone name with records but no SOA succeeds and raises the serial of the apex above it |
| `SerialLifts.ThroughAllAt` | internal/store/batch.go:161-214 | after any run of mutations through the store every path has the records of the plain run, its serial lifted once by an upsert of the name itself and once by each later mutation that raises it |
| `SerialLifts.SameTreeIff` | internal/store/batch.go:161-214 | two runs through the store leave the same tree if and only if, path by path, the plain results lifted as counted are the same |
| `SerialLifts.ApexByShape` | internal/store/batch.go:183-214 | which apex a mutation raises depends on types and on empty data alone, never on a serial |
| `SerialLifts.LiftEqualIff` | internal/store/batch.go:216-230 | serials lifted by two counts are equal if and only if the counts are, modulo 2^32, or the data has no serial |
| `SerialLifts.AlikeIff` | internal/store/batch.go:216-230 | record sets are equal up to the serial if and only if one is a lift of the other |
| `WriteOrder.CommuteIff` | internal/rfc2136/update.go:173-184 | two writes through the store can be swapped if and only if, path by path: writes of one path leave the same records, neither raises a serial the other has just written, and other serials are raised equally often both ways |
| `WriteOrder.OrderFreeIff` | internal/rfc2136/update.go:173-184 | all orders of writing the pending names through the store leave the same tree, serials included, if and only if names with the same path are left with the same records and every order lifts each serial equally often, modulo 2^32 |
| `WriteOrder.OrderAlikeIff` | internal/rfc2136/update.go:173-184 | all orders leave the same tree up to serials if and only if names with the same path are left with records equal up to serials |
| `CalmSections.CalmOrders` | internal/rfc2136/update.go:173-184 | all orders leave the same tree, serials included, when the names are different paths and, for each that brings no SOA, no pending name above it has or gets an SOA or NS and no wildcard above it has or gets an SOA or CNAME unless the name is stored |
| `UpdateExamples.SpellingsCollide` | internal/rfc2136/update.go:173-184 | a failing case, as message bytes: an UPDATE with the owners of labels "a" and of labels "a", "." succeeds, its two canonical names have one path, and the order of writing matters exactly when the data differ |
| `UpdateExamples.ApexAndBelow` | internal/rfc2136/update.go:173-184 | a failing case, as message bytes: an UPDATE that adds to the apex and to a name below it leaves the serial two steps on when the apex is written first and one step when it is written last |
| `TypeBitmaps.EncodingMeans` | internal/dnssec/nsec.go:41-75 | reading an encoding back gives blocks in increasing windows without trailing zero octets that stand for exactly the types encoded |
| `TypeBitmaps.OctetSet` | internal/dns/rdata.go:742-744 | setting a bit in an octet is adding its type |
| `BitmapEncoders.EncodeTypeBitMaps` | internal/dns/rdata.go:696-754 | writes in place the one encoding of the set of types, duplicates and order aside; succeeds if and only if there are types and 34 bytes are free where each of their windows begins |
| `BitmapEncoders.LastWindowDecides` | internal/dns/rdata.go:725-735 | that is so if and only if 34 bytes are free where the last window begins |
| `BitmapEncoders.AmpleRoom` | internal/dns/rdata.go:725-735 | and always when 31 bytes of room follow the encoding |
| `BitmapEncoders.EncodeWindowedBitmaps` | internal/dnssec/nsec.go:41-75 | builds from a map of windows the same encoding, byte for byte |
| `RateLimit.TableSlot.CheckAt` | internal/rrl/limiter.go:203-257 | updates the slot fields as the transition function says and keeps tokens within the limit and the slip count below the rate |
| `RateLimit.BoundedBetweenMoves` | internal/rrl/limiter.go:218-245 | between forward moves of the clock at most limit responses are allowed, from any slot, with the clock jittering back and the decay wrapping |
| `RateLimit.SecondExactly` | internal/rrl/limiter.go:222-257 | a second has exactly the budget the decay modulo 2^32 restored; beyond it every slip-th response is slipped and the rest dropped |
| `RateLimit.FullBudgetIff` | internal/rrl/limiter.go:223-231 | after a silence every number of responses within a second has its min(n, limit) allowed if and only if the wrapped product covers the tokens |
| `RateLimit.SilenceExactly` | internal/rrl/limiter.go:223-231 | after a second that spent the limit, the first response behind a silence is allowed if and only if silence times limit is not a multiple of 2^32 |
| `RateLimit.WrapKeepsTokens` | internal/rrl/limiter.go:223-231 | the failing case as a run: with a limit of 2^15 a key spends one second, is silent for 2^17 seconds and is dropped |
| `RateLimit.EverySecond` | internal/rrl/limiter.go:189-257 | in any run on a monotone clock a second with k responses, no overflow since the one before, has exactly min(k, limit) allowed, one in slip of the rest slipped and the others dropped |

## Left out

- HTTP, UDP, TCP, DoT and DoH servers, TLS, the command line, metrics and logging: plumbing around the modelled core.
- Signing, key handling and TSIG: the cryptography is foreign code.
- Zone files, text forms of records other than SOA, and search: string handling that would add easy members only.
- ReloadZone and its insert: they rebuild a tree offline from non-empty records.
- Resolution.ResolveIsSpec: the wildcard rule is the code's, the deepest "*" on the walked path, which is wider than section 3.3.1 of RFC 4592.
- Messages.PackResponse: of a response with a pointer to itself only header, questions, answers and that pointer are described.
- Messages.PackedUnpacks: speaks of messages within 65535 bytes and of names whose text fits the decoder, since longer ones are written but not read.
- Packing.PacketWriter.WriteRecord: record data is copied as bytes; compression inside it is decoded only for SOA data on its own.
- Store.Store: works on the tree without the answer cache in front, which CachedState covers, and records are values, so the caller's slice that autoIncrementSOA writes to is not modelled.
- Durability.EveryCrashRecovers: truncation and rename take effect when they happen; a restart that goes on writing is one whose log ended at a frame boundary. Reloading from a zone file is not a step.
- Replication.RunInvIff: download, handshake and compaction are single steps, a stream always carries the checksum header, and the replica's memory after a reconnect within a frame is not modelled.
- AnswerCache.Cache: Len is left out; locks are taken to make each shard operation one step.
- ConcurrentState.EveryAnswerWasGiven: eviction is any removal at any time, which covers expiry and capacity.
- DynamicUpdate.Process: its store never fails and raises no serials; StoreUpdates.Process is the one over the store of the daemon.
- UpdateNames.PlainStoreConfined: speaks of that store; ZoneConfinement.OnlyTheZone of the one of the daemon.
- DynamicUpdate.ApplyUpdateOp: slices of record sets are on the heap, but record data are values, so sharing of the inner data slices is absent by construction.
- StoreUpdates.Process: no other mutation comes between its reads and its writes, and the timeout of the mutation queue is left out; whether each flush goes through is a parameter.
- LruOrder.KeepsMostRecent: speaks of runs in which nothing is deleted or expires; LruOrder.RunInOrder and LruOrder.EvictsLeastRecent speak of all runs.
- DynamicUpdate.CheckPrerequisites: as in the code, each record of a value-dependent prerequisite is tested alone, where section 3.2.3 of RFC 2136 compares whole sets.
- UpdateNames.CanonicalStays: CanonicalName folds and trims ASCII only; the Unicode cases of the library functions are left out.
- BitmapEncoders.EncodeTypeBitMaps: takes type numbers; parsing of type mnemonics is left out, and sorting stands for the library function.
- RateLimit.TableSlot.CheckAt: limits and slip rates are within 65535 as in the 16-bit fields, and choosing the slot by hash is left out.
- Wal.Writer.AppendUpsert: the buffer between writer and file is not modelled as such; any prefix of what was appended may have reached the file.
- Snapshot.LoadBody: temporary files and the buffer pools are left out.
