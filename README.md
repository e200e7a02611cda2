# BeeGFS parity generator — a verified model

This project models the sequential logic of a parity generator for a
BeeGFS-style chunk store. The program runs as one MPI job with three kinds of
ranks:

- a coordinator (rank 0);
- per storage target, a *feeder*, which scans the chunk files on its target;
- per storage target, an *eater*, which collects the metadata for the chunks
  assigned to its target.

The run goes through these steps:

1. Each feeder parses the records produced by an external enumerator. It
   routes each record to a target by hashing its path, and buffers the
   records per destination. The buffers are sent asynchronously once they
   pass a threshold.
2. Each eater decodes the packed records it receives. It stores every path it
   has not seen before in a bounded, NUL-terminated name arena, and
   accumulates sizes, timestamps and source ranks in a hash map.
3. The eaters take turns, forming a ring. Each one merges its accumulated
   records with the persisted ones and chooses a parity owner by re-hashing.
   It then broadcasts the worklist as a flat string of NUL-terminated keys.
4. Every eater walks the broadcast worklist and takes its role in each task.
   A chunk source streams its chunk in windows. The parity owner XORs the
   windows of all sources and writes the parity file.

The model covers these pieces, one Dafny module each.

| Module | What it models |
|---|---|
| `Bitmask` | The packed location/owner word of `common/common.h`: 56 location bits and an 8-bit owner byte. |
| `Hashing` | `simple_hash`. |
| `Wire` | The 24-byte packed record header. |
| `Placement` | `sts_in_use`, `fill_in_missing_fields` and `select_P`. |
| `Sender` | The buffered per-destination sender, as classes over arrays. |
| `Scanner` | The enumerator parser `feed_targets_with`. |
| `Collector` | The decode loop and the name arena. |
| `Worklist` | The build and split loops of the worklist. |
| `Topology` | The rank tables `st2rank`/`rank2st`. |
| `Tasks` | `bp-parity-gen/task_processing.c`. |
| `DraftTasks` | The earlier draft `task_processing.c`. |
| `FileInfoHash` | `file_info_hash.c`. |

The helper modules are:

- `Bytes`: bytes and little-endian `uint64_t`;
- `Locations`: the array layout of `FileInfo`.

Sources are cited by their path in the repository.

The sources use two layouts of `FileInfo`. `common/common.h` has a bitmask
`locations`, which `main.c` uses. The two `task_processing.c` files and
`file_info_hash.c` use an array of `int16_t` ranks, whose length (`MAX_LOCS`)
and owner index (`P_INDEX`) are not defined in `common/common.h`. The two layouts
are modelled separately, in `Bitmask` and `Locations`.

C integer widths are written out:

- `uint64_t` sums wrap modulo 2^64;
- the hash wraps modulo 2^32;
- a `uint16_t` stored into an `int16_t` slot wraps to a negative value;
- the conversion of `expected_messages` to `int` truncates to 32 bits;
- C `char` is signed, so `simple_hash` adds the sign-extended byte.

Message passing is modelled by values:

- an `MPI_Test` result is a boolean parameter;
- the bytes handed to sends are kept in a ghost log of messages;
- received messages and file reads are given as inputs.

## Model

| member | source | states |
|---|---|---|
| Bitmask.GetP | common/common.h:8 | The owner byte is always below 256. |
| Bitmask.WithP | common/common.h:11 | The 56 location bits are kept, the owner byte holds the low 8 bits of P, and `GET_P` reads back P mod 256. |
| Bitmask.OwnerRoundTrip | common/common.h:8-11 | `GET_P(WITH_P(loc, P)) == P` for every P below 256, `NO_P` included. |
| Bitmask.WithPOverwrites | common/common.h:11 | Setting the owner twice equals setting it once to the second value. |
| Bitmask.MasksPartition | common/common.h:9-10 | The AND of `P_MASK` and `L_MASK` is all zeros and their OR is all ones. |
| Bitmask.SplitIsUnique | common/common.h:8-11 | Every word is `WITH_P` of its location part and its owner. |
| Bitmask.TestBitWithP | common/common.h:7-11 | For i < 56, setting the owner does not change `TEST_BIT(loc, i)`. |
| Bitmask.PopCount | bp-parity-gen/main.c:50-51 | The count of set bits among the first n is at most n. |
| Bitmask.PopCountIsCardinality | bp-parity-gen/main.c:50-51 | The popcount equals the size of the set of set bit positions. |
| Bitmask.Max | common/common.h:20 | `MAX` is at least both arguments and equals one of them. |
| Bitmask.Min | common/common.h:21 | `MIN` is at most both arguments and equals one of them. |
| Bytes.U64RoundTrip | bp-parity-gen/main.c:108-113 | A `uint64_t` field read back from its 8 little-endian bytes is the value written. |
| Hashing.SignedChar | bp-parity-gen/main.c:59 | A byte read as a signed `char` lies in [-128, 128) and is congruent to the byte modulo 256. |
| Hashing.MixIsTimes33 | bp-parity-gen/main.c:59 | `h + (h << 5) + c` in 32 bits is `(33h + c) mod 2^32`. |
| Hashing.HashConcat | bp-parity-gen/main.c:54-61 | Hashing `a + b` means hashing b starting from the hash of a. |
| Hashing.SimpleHash | bp-parity-gen/main.c:54-61 | The loop computes the djb2 fold from 5381; the empty input hashes to 5381. |
| Hashing.BytesOfU32 | bp-parity-gen/main.c:101 | The 4 bytes of `&H` read back as H. |
| Wire.Encode | bp-parity-gen/main.c:189-192 | A packed record is 24 header bytes followed by the path. |
| Wire.EncodeHeader | bp-parity-gen/main.c:108-113 | The header holds `byte_size`, `timestamp` and `path_len` in this order. |
| Wire.EncodeAllAppend | bp-parity-gen/main.c:189-193 | Appending a record appends its encoding to the stream. |
| Wire.DecodeFront | bp-parity-gen/main.c:400-402 | Decoding an encoded record followed by more bytes gives the record back and advances by `24 + path_len`. |
| Wire.DecodeEncodeAll | bp-parity-gen/main.c:400-402 | Decoding the concatenated encodings of any records gives the records back. |
| Placement.StsInUse | bp-parity-gen/main.c:47-52 | The count of used targets is the popcount of the 56 location bits, at most 56. |
| Placement.FillInMissingFields | bp-parity-gen/main.c:79-86 | Result: the larger size; dst's timestamp; the union of the location bits; as owner, src's owner if its bit is not in the union, else 0. |
| Placement.FillInUnion | bp-parity-gen/main.c:83 | A target holds a replica after the merge iff it did in either record. |
| Placement.FillInSymmetric | bp-parity-gen/main.c:81-83 | Merging in either order gives the same locations and size. |
| Placement.FillInIdempotent | bp-parity-gen/main.c:79-86 | A record whose owner holds no replica is unchanged by merging with itself. |
| Placement.FillInKeepsPersistedOwner | bp-parity-gen/main.c:82-85 | A persisted owner with no replica on it survives the merge. |
| Placement.MergedOwnerCollides | bp-parity-gen/main.c:82-85 | If the persisted owner now holds a replica, the owner becomes 0, not `NO_P`; if target 0 also holds a replica, the owner is a location. |
| Placement.FillInMissingFieldsCorrected | bp-parity-gen/main.c:75-86 | The corrected merge: an owner naming a target never holds a replica, and a colliding owner is reset to `NO_P`. |
| Placement.Candidate | bp-parity-gen/main.c:99-102 | Every candidate owner `H % ntargets` is below ntargets. |
| Placement.FirstFree | bp-parity-gen/main.c:100-104 | The first round whose candidate is free, with every earlier candidate taken. |
| Placement.FirstFreeAt | bp-parity-gen/main.c:100-104 | Any round k whose earlier candidates are taken and whose own is free is the one `FirstFree` finds. |
| Placement.PlacedOwner | bp-parity-gen/main.c:94-106 | The record is unchanged, or only its owner changes, to a free target below ntargets. |
| Placement.SelectP | bp-parity-gen/main.c:94-106 | If all ntargets targets are in use the record is unchanged. Otherwise, on exit, the owner is the first free candidate, below ntargets and not a location, and the rest is unchanged. |
| Placement.Rehash | bp-parity-gen/main.c:99-104 | The loop stops at the first free candidate, all earlier ones taken, or runs out of rounds with all taken. |
| Placement.NextHash | bp-parity-gen/main.c:101 | One round is `H ^ simple_hash(&H, 4)`. |
| Placement.OwnerIsFree | bp-parity-gen/main.c:105 | Writing a free target as owner keeps the locations and leaves the owner off the location set. |
| Placement.FreeTargetExists | bp-parity-gen/main.c:97-104 | If the locations lie below ntargets and fewer than ntargets are used, some target below ntargets is free. |
| Sender.Destination.constructor | bp-parity-gen/main.c:115-118 | A destination starts with nothing written, in flight or sent. |
| Sender.Destination.IsDoneWithPrevSend | bp-parity-gen/main.c:127-136 | True iff a send is in flight and `MPI_Test` reports it complete. |
| Sender.Destination.FinishPrevSend | bp-parity-gen/main.c:138-151 | The unsent bytes `[in_transit, written)` move to the front; written drops by the bytes sent; in_transit becomes 0. |
| Sender.Destination.MoveToFront | bp-parity-gen/main.c:147-148 | The `memmove` copies the range to the front and leaves the rest of the buffer. |
| Sender.Destination.BeginSend | bp-parity-gen/main.c:153-167 | Requires nothing in flight and written > 0; puts all written bytes in flight and logs them as one message. |
| Sender.Destination.CopyIn | bp-parity-gen/main.c:190-192 | The `memcpy` writes the bytes at the offset and keeps the bytes before it. |
| Sender.Destination.Append | bp-parity-gen/main.c:189-193 | The record's encoding is appended after the written bytes. |
| Sender.Destination.Push | bp-parity-gen/main.c:169-198 | Reclaims the buffer when full or when the previous send completed, appends the encoding, and starts a send at the threshold; keeps `0 ≤ in_transit ≤ written ≤ size`. |
| Sender.Destination.Flush | bp-parity-gen/main.c:203-209 | Every written byte ends up in flight; the records are unchanged. |
| Sender.Destination.Drain | bp-parity-gen/main.c:210-214 | After the last wait every byte has been sent. |
| Sender.Destination.SentIsConserved | bp-parity-gen/main.c:189-215 | Once all is sent, the concatenated messages equal the encodings of the pushed records, in order. |
| Sender.AppendConserves | bp-parity-gen/main.c:189-193 | Sent bytes plus waiting bytes stay equal to the encodings of all records pushed. |
| Sender.RecordsForAppend | bp-parity-gen/main.c:169-172 | A push adds a record only to the queue of its own target. |
| Sender.Feeder.constructor | bp-parity-gen/main.c:115-118 | `MAX_TARGETS` empty destinations with no pushes. |
| Sender.Feeder.PushToTarget | bp-parity-gen/main.c:169-198 | The routed record is appended to the log of pushes. |
| Sender.Feeder.SendRemaining | bp-parity-gen/main.c:200-215 | Afterwards every destination has sent everything, and each one's messages equal the encodings of the records routed to it. |
| Sender.Feeder.FlushAll | bp-parity-gen/main.c:203-209 | First loop: every destination has all written bytes in flight. |
| Sender.Feeder.DrainAll | bp-parity-gen/main.c:210-214 | Second loop: every destination has sent everything. |
| Scanner.TargetOf | bp-parity-gen/main.c:239 | A record goes to `simple_hash(path) % ntargets`, below ntargets. |
| Scanner.HeadOf | bp-parity-gen/main.c:229-237 | The three header words are, in order, `timestamp`, `byte_size` and `path_len`. The record is cut short exactly when `24 + path_len`, taken modulo 2^64, exceeds the alive bytes. It is a bad length exactly when it fits but `path_len` is 0 or `24 + path_len` wraps. Otherwise the record carries that timestamp and byte size, its path is the next `path_len` bytes, and it goes to target `simple_hash(path) % ntargets`. |
| Scanner.ParseRecord | bp-parity-gen/main.c:229-248 | A parsed record is followed by the parse of the input `25 + len` bytes later. A record with no room for its padding byte stops the parse (the underflow of `buf_alive`). |
| Scanner.ReadHead | bp-parity-gen/main.c:230-237 | Computing the hash with the loop of `simple_hash`, the header is cut short exactly when `(24 + path_len) mod 2^64` exceeds the alive bytes. A record is read exactly when `0 < path_len` and `24 + path_len` neither wraps nor exceeds them. That record is `(byte_size, timestamp, next path_len bytes)` from words 1, 0 and 2, sent to `simple_hash(path) % ntargets`; the result agrees with `HeadOf`. |
| Scanner.PushNext | bp-parity-gen/main.c:229-248 | One iteration pushes the next parsed record and advances past it and its padding byte. |
| Scanner.ProgressStep | bp-parity-gen/main.c:229-248 | When the records pushed so far plus the parse at `off` give the whole parse, the header at `off` settles the outcome. A short record means the parse ended Done. A bad length means it aborted. A record ending the data completes the parse with an overrun. Any other record is one more pushed, and the parse resumes after its padding byte. |
| Scanner.PushAll | bp-parity-gen/main.c:225-250 | Every parsed record is pushed, in input order. |
| Scanner.FeedTargetsWith | bp-parity-gen/main.c:217-255 | The pushes are the parse of the input. After a clean end every target has been sent exactly the encodings of its records. |
| Collector.JoinAppend | bp-parity-gen/main.c:406-409 | Storing a name appends the name and a NUL to the arena. |
| Collector.Step | bp-parity-gen/main.c:403-415 | When `written + len + 1` reaches the capacity, the record is skipped and nothing changes. Otherwise `fih_add_info` is called once more with the path, the storage target, the byte size and the timestamp. The name stays in the arena and `written` grows by `len + 1` exactly when the map did not know the path. The written count stays below the capacity. |
| Collector.StepsBelowCapacity | bp-parity-gen/main.c:403-404 | The arena never fills to its capacity. |
| Collector.KeptWereReported | bp-parity-gen/main.c:403-415 | Every stored name is the path of a received record the map did not already know. |
| Collector.NothingDropped | bp-parity-gen/main.c:400-415 | With room enough, every record is reported to the map, in order. |
| Collector.DecodeAdvance | bp-parity-gen/main.c:400-402 | Each step decodes the next record and advances by `24 + path_len`. |
| Collector.NextRecord | bp-parity-gen/main.c:400-402 | The cursor moves strictly forward onto the next record. |
| Collector.NameArena.constructor | bp-parity-gen/main.c:122-123 | An empty arena of the given capacity. |
| Collector.NameArena.StoreName | bp-parity-gen/main.c:406-415 | A new name is stored NUL-terminated; a known name's space is given back. |
| Collector.NameArena.Absorb | bp-parity-gen/main.c:402-415 | One record's effect on the arena equals `Collector.Step`. |
| Collector.NameArena.ReceiveNext | bp-parity-gen/main.c:400-415 | One loop iteration advances the arena by one `Step`. |
| Collector.NameArena.Receive | bp-parity-gen/main.c:396-416 | The arena after a message is the fold of `Step` over its decoded records. |
| Worklist.SplitJoin | bp-parity-gen/main.c:448-484 | Splitting the joined names gives back the names up to the first empty one, or all of them when none is empty. |
| Worklist.JoinLaid | bp-parity-gen/main.c:406-409 | The arena lays each name and its NUL end to end. |
| Worklist.SplitLaid | bp-parity-gen/main.c:475-484 | The split of such a layout gives back the names up to the first empty one. |
| Worklist.StrLen | bp-parity-gen/main.c:451 | `strlen` is the distance to the next NUL. |
| Worklist.NextName | bp-parity-gen/main.c:479-482 | One step returns the next name and skips past its NUL. |
| Worklist.PrepareOwner | bp-parity-gen/main.c:452-459 | A merged owner other than `NO_P` is kept. Otherwise the owner is chosen among the free targets, or the record is left unchanged. |
| Worklist.PrepareItem | bp-parity-gen/main.c:452-459 | One item: merge with the persisted record if there is one, then choose an owner if none is set. |
| Worklist.BuildSnoc | bp-parity-gen/main.c:452-462 | One more name appends its prepared record and stores it in the database. |
| Worklist.BuildStoresAll | bp-parity-gen/main.c:448-463 | After the build, the database holds every worklist record and keeps every other key unchanged. |
| Worklist.BuildNext | bp-parity-gen/main.c:449-463 | One iteration of the build loop. |
| Worklist.BuildWorklist | bp-parity-gen/main.c:448-466 | nitems is the number of names in the arena; the records and database are the build over them; the keys are the arena. |
| Worklist.ApplyOnlyInvolved | bp-parity-gen/main.c:477-484 | A key whose items were not involved keeps its persisted record. |
| Worklist.ApplyStoresInvolved | bp-parity-gen/main.c:480-481 | An involved item's record is stored unless a later item overwrites the same key. |
| Worklist.ApplyWorklist | bp-parity-gen/main.c:475-484 | The split loop walks the first nitems keys and stores the involved ones. |
| Topology.IdWord | bp-parity-gen/main.c:290 | The gathered ID word has the rank in the low and the ID in the high 32 bits. |
| Topology.EaterWordsRanked | bp-parity-gen/main.c:300-301 | The eater words kept carry the odd ranks 1, 3, … in their low bits. |
| Topology.Sort | bp-parity-gen/main.c:302 | `qsort` returns a sorted permutation. |
| Topology.InsertSorted | bp-parity-gen/main.c:302 | Insertion keeps a sequence sorted. |
| Topology.StRankInjective | bp-parity-gen/main.c:302-306 | The st2rank values are distinct odd ranks below 2·ntargets. |
| Topology.StRankCoversEaters | bp-parity-gen/main.c:300-306 | Every eater rank 2k+1 appears in st2rank. |
| Topology.StRankFollowsTargetIds | bp-parity-gen/main.c:302-306 | Targets are numbered in increasing target-ID order. |
| Topology.KeepEaterWords | bp-parity-gen/main.c:300-301 | The first ntargets words become the eaters' gathered words. |
| Topology.FillTables | bp-parity-gen/main.c:302-309 | Sort, then fill both tables. |
| Topology.FillLoop | bp-parity-gen/main.c:303-309 | `st2rank[i]` is the i-th eater rank; `rank2st[st2rank[i]] == rank2st[st2rank[i]+1] == i`; `rank2st[0] == -1`; other entries are 0. |
| Topology.CheckPairs | bp-parity-gen/main.c:297-299 | The loop of `assert`s, starting at word 0 as written or at word 1, passes exactly when every checked pair of gathered words has equal upper halves. |
| Topology.PairsForceZero | bp-parity-gen/main.c:282-299 | Rank 0 gathers the word 0, so the check as written passes only when the first collector's target ID is 0 modulo 2^32. |
| Topology.PairsForceAllZero | bp-parity-gen/main.c:282-299 | When collector 2k+1 and scanner 2k+2 share a target, the check as written passes only when every collector's target ID is 0 modulo 2^32. |
| Topology.CorrectedPairsAccept | bp-parity-gen/main.c:297-299 | The check over words (2k+1, 2k+2) passes exactly when each collector and the scanner beside it share a target. |
| Topology.BuildTables | bp-parity-gen/main.c:300-309 | Compaction, sort and fill give the tables for the gathered IDs. |
| Topology.Resolve | bp-parity-gen/main.c:297-310 | As written: it aborts (no tables) exactly when the pair check fails; otherwise it gives the tables. |
| Topology.ResolveCorrected | bp-parity-gen/main.c:297-310 | With the corrected check: it gives the tables exactly when each collector and its scanner share a target, and aborts otherwise. |
| Topology.EaterThenFeeder | bp-parity-gen/main.c:63-73 | The eater of target st is an odd rank, and its feeder (`eater + 1`) maps back to st. |
| Topology.FeederThenEater | bp-parity-gen/main.c:63-73 | Feeder rank 2k+2 maps to a target whose eater is rank 2k+1. |
| Tasks.FoundInSrcs | bp-parity-gen/task_processing.c:189-191 | True iff the rank is among the location slots. |
| Tasks.ProcessTask | bp-parity-gen/task_processing.c:186-199 | Parity role iff the owner slot is my rank; sender role iff not the owner, present and rank > 0; involved iff some role. |
| Tasks.ActiveCountUnique | bp-parity-gen/task_processing.c:74-81 | At most one count of leading non-zero entries exists. |
| Tasks.ActiveRanks | bp-parity-gen/task_processing.c:74-81 | k ≤ n, the first k entries are non-zero, and entry k is 0 when k < n. |
| Tasks.DivRoundUpIsCeiling | bp-parity-gen/task_processing.c:83-87 | Without overflow the result is the least r with r·b ≥ a. |
| Tasks.DivRoundUpZero | bp-parity-gen/task_processing.c:83-87 | `div_round_up(0, b) == 0`. |
| Tasks.Int32 | bp-parity-gen/task_processing.c:125 | The `int` conversion is congruent modulo 2^32, in range, and exact below 2^31. |
| Tasks.Truncate | bp-parity-gen/task_processing.c:61-64 | `snprintf` keeps a prefix of at most 255 characters, all of a short string. |
| Tasks.ParityTargetOf | bp-parity-gen/task_processing.c:48-70 | A parity file iff the id starts with `/store01/chunks/` or `/store02/chunks/`, otherwise `/dev/null`; the path has at most 255 characters. |
| Tasks.ParityRewrite | bp-parity-gen/task_processing.c:56-64 | `/store0N/chunks/rel` maps to `/store0N/parity/rel` cut to 255 characters, exactly when short enough. |
| Tasks.ParityPathsDistinct | bp-parity-gen/task_processing.c:56-64 | Distinct chunk ids of at most 255 characters get distinct parity paths. |
| Tasks.CString | bp-parity-gen/task_processing.c:22-24 | The string in a buffer is its prefix before the first NUL. |
| Tasks.MkdirForFile | bp-parity-gen/task_processing.c:20-31 | Creates exactly the prefixes ending before a '/' at position ≥ 1, in increasing length, never the last component. |
| Tasks.XorByteLaws | bp-parity-gen/task_processing.c:97-99 | 0 is the identity of byte XOR and every byte is its own inverse. |
| Tasks.XorSources | bp-parity-gen/task_processing.c:89-101 | Bytes from nbytes on are untouched and the length is kept. |
| Tasks.XorSourcesAt | bp-parity-gen/task_processing.c:89-101 | `dst'[i] = dst[i] ^ src_0[i] ^ … ^ src_{n-1}[i]` for i < nbytes. |
| Tasks.XorSingleSource | bp-parity-gen/task_processing.c:89-101 | A single source XORed onto zeros is copied unchanged. |
| Tasks.XorSource | bp-parity-gen/task_processing.c:94-99 | The 8-byte loop and the tail loop together XOR each index below nbytes exactly once. |
| Tasks.XorParity | bp-parity-gen/task_processing.c:89-101 | The array after `xor_parity` is the XOR of the nsources blocks into dst. |
| Tasks.WindowSize | bp-parity-gen/task_processing.c:119 | The window is at most the buffer and at most max, and positive when max is. |
| Tasks.CeilIsLeast | bp-parity-gen/task_processing.c:83-87 | The ceiling is the least i with i·b ≥ a. |
| Tasks.WindowCountsAgree | bp-parity-gen/task_processing.c:119-181 | The generator's `div_round_up(max, BUF)` equals the number of sender iterations of `min(BUF, max)` bytes, including for max = 0. |
| Tasks.FullSize | bp-parity-gen/task_processing.c:130-133 | The header is the sum of the received sizes modulo 2^64. |
| Tasks.ReceiveWindow | bp-parity-gen/task_processing.c:139-140 | Source s's message lands at `data + s·bs`. |
| Tasks.CopyAt | bp-parity-gen/task_processing.c:139 | One receive puts its message at its offset and keeps the bytes before it. |
| Tasks.GenerateWindow | bp-parity-gen/task_processing.c:139-142 | One window's messages are XORed into `P_block`. |
| Tasks.BlocksAt | bp-parity-gen/task_processing.c:134-147 | Block k written is the first bs bytes of `P_block` after windows 0..k. |
| Tasks.WindowLoop | bp-parity-gen/task_processing.c:134-147 | `P_block` accumulates every window. The blocks written are the accumulated prefixes, up to and including the first failed write. Receives continue after a failure. |
| Tasks.WindowStep | bp-parity-gen/task_processing.c:136-146 | One iteration keeps the loop's invariant. Afterwards `P_block` holds the windows so far. A block is appended only while no write has failed. |
| Tasks.ParityGeneratorRun | bp-parity-gen/task_processing.c:109-152 | Header = sum of sizes mod 2^64; blocks as in `WindowLoop`; the failure flag is the header write's result or a later failed write. |
| Tasks.WindowParity | bp-parity-gen/task_processing.c:142 | The parity of one window alone has the window's size. |
| Tasks.SingleSourceParity | bp-parity-gen/task_processing.c:142 | With one source the parity of a window is that source's data. |
| Tasks.PrefixParityCounterexample | bp-parity-gen/task_processing.c:121-146 | Take `max_chunk_size = 2 * FILE_TRANSFER_BUFFER_SIZE`. Then the window is the whole buffer, and generator and sender both count two windows. For any data `m` sent in both windows by one source, the second block written is all zeros, although that window's parity is `m`. |
| Tasks.ParityBlocksAt | bp-parity-gen/task_processing.c:142 | With `P_block` cleared per window, block k is the parity of window k alone. |
| Tasks.ClearingWindowLoop | bp-parity-gen/task_processing.c:134-147 | The corrected loop writes the per-window parities, with the same write-failure behaviour. |
| Tasks.SenderState | bp-parity-gen/task_processing.c:173-181 | The sender's buffer has the window size after any number of iterations. |
| Tasks.SenderStep | bp-parity-gen/task_processing.c:172-181 | The counter does not wrap, and the loop test matches the window count. |
| Tasks.ReadInto | bp-parity-gen/task_processing.c:176 | A read overwrites the front of the buffer. |
| Tasks.ChunkSenderRun | bp-parity-gen/task_processing.c:154-184 | Sends to the owner slot: one size message (0 if the open failed), then one message per window, each the buffer after that iteration's read. |
| Tasks.CounterExact | bp-parity-gen/task_processing.c:172-180 | While nothing wraps, `read_from_fd` after k iterations is k windows of `buffer_size` bytes. |
| Tasks.CounterAligned | bp-parity-gen/task_processing.c:179 | When `buffer_size` and 2^64 are both multiples of g, every value `read_from_fd` takes is a multiple of g. |
| Tasks.SenderNeverFinishes | bp-parity-gen/task_processing.c:173-181 | For `max_chunk_size` above 2^64 − 2^21, `buffer_size` is the whole buffer, and `read_from_fd` stays below `max_chunk_size` after every iteration. So the loop never ends. |
| Tasks.GeneratorWindowsWrap | bp-parity-gen/task_processing.c:84-87 | `expected_messages` wraps at both ends. For `max = 2^64 − 1` it is 0. For `max = 2^31·BUF` it is −2^31, while the sender sends 2^31 windows. |
| Tasks.CorrectedWindows | bp-parity-gen/task_processing.c:84-87 | A wrap-free `div_round_up`: the quotient plus one for a remainder, always below 2^64. |
| Tasks.CorrectedWindowsAgree | bp-parity-gen/task_processing.c:125 | For every `max_chunk_size`, the wrap-free count equals the number of windows the sender sends. |
| Tasks.ClampedCounter | bp-parity-gen/task_processing.c:179 | A counter that adds `MIN(buffer_size, max − read_from_fd)` never passes `max_chunk_size`. |
| Tasks.ClampedCounterValue | bp-parity-gen/task_processing.c:179 | After k iterations that counter is `MIN(k·buffer_size, max)`. |
| Tasks.ClampedCounterRuns | bp-parity-gen/task_processing.c:173 | With that counter, the loop test holds for exactly `ceil(max / buffer_size)` iterations, for every `max_chunk_size`. |
| DraftTasks.ExpectedMessages | task_processing.c:74 | 0 windows for max = 0, else `1 + max / BUF`. |
| DraftTasks.DraftWindowMismatch | task_processing.c:74-122 | The generator expects one more window than the sender sends exactly when max is a positive multiple of BUF, and the same count otherwise. |
| DraftTasks.OneBufferMismatch | task_processing.c:74-122 | A chunk of exactly one buffer is expected as 2 windows and sent as 1. |
| DraftTasks.DraftSenderStep | task_processing.c:113-122 | The counter does not wrap, and the loop test matches the draft's window count. |
| DraftTasks.DraftChunkSender | task_processing.c:103-125 | Sends to the owner slot one whole-buffer message per window, each the buffer after that iteration's read. |
| DraftTasks.DraftSenderNeverFinishes | task_processing.c:113-121 | For `max_chunk_size` above 2^64 − 2^20, the draft's `read_from_fd` stays below `max_chunk_size` after every iteration. So its loop never ends. |
| DraftTasks.FirstOfFlatten | task_processing.c:82-95 | The first buffer of data holds source 0's message. |
| DraftTasks.DraftParityGenerator | task_processing.c:68-101 | Writes source 0's window each round, with no XOR, until the first failed write. |
| Locations.Int16 | file_info_hash.c:28 | A `uint16_t` stored into an `int16_t` slot is congruent modulo 2^16 and is 0 iff the value is 0. |
| Locations.Zeroed | file_info_hash.c:18-19 | A new record is all zeros. |
| FileInfoHash.FreeSlot | file_info_hash.c:24-28 | The slot written is the first zero slot below 15, or 15. |
| FileInfoHash.FindFreeSlot | file_info_hash.c:24-27 | The scan loop finds that slot. |
| FileInfoHash.UpsertEffect | file_info_hash.c:22-28 | Size becomes the maximum, the timestamp becomes that of the last report; the free slot gets src and the other slots are unchanged. |
| FileInfoHash.RepeatTakesNewSlot | file_info_hash.c:24-28 | With no deduplication, a repeated non-zero src takes a further slot. |
| FileInfoHash.ZeroRankLeavesSlotFree | file_info_hash.c:24-28 | A src of 0 leaves its slot free, indistinguishable from no report. |
| FileInfoHash.FileInfoHash.constructor | file_info_hash.c:5-10 | `fih_init` gives an empty map. |
| FileInfoHash.FileInfoHash.AddInfo | file_info_hash.c:12-29 | Upsert on the map: a new key starts zeroed, the key set grows by the key only, and other entries are unchanged. |
| FileInfoHash.FileInfoHash.Collect | file_info_hash.c:31-42 | Returns `min(max, size)` pairs, each a present entry, with no key twice. |

## Left out

- MPI itself is left out: point-to-point sends and receives, collectives, groups and communicators, and the coordinator's termination protocol (bp-parity-gen/main.c:355-371). Received messages and `MPI_Test` results are inputs; sends are appended to a ghost log.
- Process and file I/O are left out:
  - `popen`/`fread` of the enumerator, `open`, `read`, `write`, `fstat`, `creat`, `mkdir`, and reading the targetID file with `atoll`;
  - file contents, read and write results and open results are inputs;
  - the paths passed to `mkdir` are returned.
- `printf`/`fputs` logging is left out.
- khash and the persistent database (`pdb_get`, `pdb_set`, `fih_get`) are abstract maps. The order in which khash enumerates buckets is not modelled.
- The two `FileInfo` layouts are used side by side by the source. How `fih_get` turns an array record into a bitmask record is not modelled: the gathered bitmask records are an input.
- `MAX_LOCS` and `P_INDEX` are parameters.
- TEST_BIT with a shift of 64 or more is undefined in C (`TEST_BIT(x, 255)` in `fill_in_missing_fields`); the model reads it as "not set".
- Placement.SelectP: runs for at most `fuel` rounds, because `select_P` has no termination argument. The postcondition holds on exit; running out of rounds is reported.
- Scanner.FeedTargetsWith: takes the whole input in a single read of at most 64 KiB. It does not model the carried buffer across reads. A record without its padding byte makes `buf_alive` underflow; the model stops there with a status.
- Topology.Resolve: requires the gather to fit (`2·ntargets + 1 ≤ 2·MAX_TARGETS`), since `targetIDs` is too small for the `2T+1` words gathered. The same holds for Topology.ResolveCorrected and Topology.BuildTables.
- Topology.Resolve: a failing `assert` at bp-parity-gen/main.c:298-299 is modelled as an abort result (`ok` false, no tables). The model assumes the `assert` is compiled in: with `NDEBUG` the check disappears and the tables are always built. The check as written passes only on deployments where every collector's target ID is 0 modulo 2^32 (see Findings). Every other deployment aborts.
- Sender.Destination.Valid: states conservation over all messages together, not per message. It does not state that each message logged by Sender.Destination.BeginSend is the encoding of a contiguous block of records. So the `Framed` precondition of Collector.NameArena.Receive is not derived from the sender side.
- Collector.NameArena.Receive: handles one received message. The outer receive loop and `st_from_feeder_rank` of the sender are left out; the source target is a parameter. The nonzero return of `fih_add_info` that main.c uses (file_info_hash.c returns `void`) is an abstract boolean per record.
- Worklist.BuildWorklist: requires every name in the arena to have a gathered record, which `fih_get` provides in the source.
- Worklist.ApplyWorklist: takes the answer of `process_task` per item as an input (`involved`), so the task execution itself is modelled in `Tasks`.
- Tasks.WindowCountsAgree: requires `max ≤ (2^31 - 1)·BUF`. Above that the `int` conversion of `expected_messages` truncates, and the counts differ (Tasks.GeneratorWindowsWrap). Tasks.CorrectedWindowsAgree holds for every size.
- Tasks.ChunkSenderRun: requires `max ≤ 2^64 - BUF`, so that `read_from_fd` does not wrap. Above 2^64 − 2^21 the source's loop never ends (Tasks.SenderNeverFinishes). In between, `read_from_fd` may wrap to a small value, and the loop then goes on past the window count. The generator then expects 0 windows, or a truncated count (Tasks.GeneratorWindowsWrap). See the Findings.
- Tasks.ChunkSenderRun and DraftTasks.DraftChunkSender: the `stat` of the file is an input.
- DraftTasks.DraftChunkSender: requires `max ≤ 2^64 - BUF` for the same reason. Above 2^64 − 2^20 the draft's loop never ends (DraftTasks.DraftSenderNeverFinishes).
- DraftTasks.ExpectedMessages: only states the cases max = 0 and `0 < max < (2^31 - 1)·BUF`. Above that the `int` conversion truncates.
- DraftTasks.DraftParityGenerator: requires at least one active source. With none, `calloc(0, …)` returns a null pointer or a zero-size block. The draft still runs `expected_messages` rounds and calls `write(P_fd, data, FILE_TRANSFER_BUFFER_SIZE)` on that allocation. That is a 1 MiB over-read, or a write that fails with `EFAULT`, after which `P_local_write_error` stops further writes.
- The draft's `active_ranks` (task_processing.c:52-59) and `process_task` (task_processing.c:127-136) have the same text as the newer ones. They are modelled once, as Tasks.ActiveRanks and Tasks.ProcessTask; the draft's `process_task` has no return value.
- An empty name in the arena ends the worklist walk (bp-parity-gen/main.c:449). Worklist.SplitJoin states what is recovered in that case.

## Findings

| source | as written | input that shows it | evidently intended | confidence | as-written member | corrected member |
|---|---|---|---|---|---|---|
| bp-parity-gen/task_processing.c:121-146 | `P_block` is zeroed once and every window is XORed into it, so window k's block is the XOR of windows 0..k of all sources. | `max_chunk_size = 2 * FILE_TRANSFER_BUFFER_SIZE`, one source, two equal windows `m`: the second block is all zeros instead of `m`. | Each written block is the XOR of one window's sources, as the single-source case requires (a chunk's parity is the chunk). | high (not executed) | Tasks.PrefixParityCounterexample | Tasks.ParityBlocksAt |
| task_processing.c:74 | The draft generator expects `1 + max / BUF` windows, while the draft sender sends `ceil(max / BUF)`. | max = BUF = 1 MiB: 2 windows expected, 1 sent, so the generator waits for a message that never comes. | Equal counts; the newer file's `div_round_up` gives them. | high (not executed) | DraftTasks.OneBufferMismatch | Tasks.WindowCountsAgree |
| bp-parity-gen/main.c:82-85 | When the persisted owner now holds a replica, the masking leaves owner byte 0, not `NO_P`, so `select_P` is not called again. | Gathered locations {0, 3}, persisted owner 3: the merged owner is target 0, which holds a replica. | Reset the owner to `NO_P` so that a new owner is chosen outside the locations. | medium (not executed) | Placement.MergedOwnerCollides | Placement.FillInMissingFieldsCorrected |
| bp-parity-gen/task_processing.c:173-181 | `read_from_fd += buffer_size` wraps in `uint64_t`, and its values are multiples of 2^21. So `read_from_fd < data_in_fd` never fails when `max_chunk_size` is above 2^64 − 2^21. | `max_chunk_size = 2^64 − 1`: the sender loop never ends. | The counter stops at `max_chunk_size`, so the loop runs `ceil(max / buffer_size)` times. | medium (not executed) | Tasks.SenderNeverFinishes | Tasks.ClampedCounterRuns |
| task_processing.c:113-121 | The draft's `read_from_fd += FILE_TRANSFER_BUFFER_SIZE` takes only multiples of 2^20. So the loop never ends when `max_chunk_size` is above 2^64 − 2^20. | `max_chunk_size = 2^64 − 1`: the draft sender loop never ends. | The counter stops at `max_chunk_size`, so the loop runs `ceil(max / 1 MiB)` times. | medium (not executed) | DraftTasks.DraftSenderNeverFinishes | Tasks.ClampedCounterRuns |
| bp-parity-gen/task_processing.c:84-87 | `div_round_up` wraps when `a + b − 1` reaches 2^64, and `expected_messages` is an `int`. | `max_chunk_size = 2^64 − 1`: 0 windows expected. `max_chunk_size = 2^31·BUF`: −2^31 expected, while the sender sends 2^31 windows. | The generator expects as many windows as the sender sends, for every `max_chunk_size`. | medium (not executed) | Tasks.GeneratorWindowsWrap | Tasks.CorrectedWindowsAgree |
| bp-parity-gen/main.c:297-299 | The `assert` compares gathered words 2k and 2k+1. Rank 0 gathers the word 0, and collector 2k+1 is paired with scanner 2k+2 (main.c:315-318). | Two targets, collectors reading IDs 1 and 2: the first assert compares 0 with 1 and aborts. | Compare collector 2k+1 with scanner 2k+2, which read the same `targetID` file. | high (not executed) | Topology.PairsForceAllZero | Topology.ResolveCorrected |

The members on the program's main path (worklist build, parity generator) follow the code as written:

- `Tasks.WindowLoop` and `Tasks.ParityGeneratorRun` accumulate windows;
- `Worklist.Prepare` uses `Placement.FillInMissingFields`.

The corrected members stand beside them.
