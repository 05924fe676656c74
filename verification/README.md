# A DNS relay, verified

A model in Dafny of a small DNS server and of what it is built on: a message codec with name compression, an LRU
cache with times to live over a hash table and a linked list, and a thread pool with a blocking queue. The code that
updates memory in place is modelled by classes, arrays and loops that are proved against specification functions; the
theorems are about those functions and about runs of them. The queue is a transition system with one step for each
lock, wait, signal and access to shared memory, for any number of threads.

`dafny verify dfyconfig.toml` checks everything.

| files | what they hold |
|---|---|
| `Bytes`, `Sequences` | octets, big-endian integers, a sequence without one element |
| `NameCodec` | names on the wire: encoder, decoder, compression table, as functions |
| `Messages`, `Flags` | questions, records, headers, whole messages; the mirrored flag word |
| `Meaning`, `WireFormat` | messages that are the same but for data_length; the octets against RFC 1035 |
| `StoredKeys`, `ClashingKeys`, `StoredMessages` | compression through the hash table as it is, which cuts keys at 50 octets: exactly which names and messages survive |
| `MessageObject`, `Encoder`, `Decoder` | the message structure and the codec as they run on a buffer, with the hash table |
| `Codec` | encoder and decoder on one buffer |
| `HashTable`, `Rescaling` | the chained hash table on the heap; its shape and cost over runs |
| `LinkList`, `CacheModel`, `CacheRuns`, `CacheTable`, `Cache` | the ring; the cache as a list of entries and over runs, and its table over runs; the cache on the heap |
| `TwoPhaseGet` | `CacheGet` as two locked sections among other threads |
| `SafeQueue` | the queue's transition system |
| `QueueSafety`, `QueueList`, `QueueMemory`, `QueueWakeups`, `ThreadPool` | what all its interleavings keep |
| `QueueBroadcast`, `QueueDrain`, `QueueShutdown` | who misses the broadcast, when `SafeDestroy` can return, and who is inside then |
| `Server`, `FileReader` | cached answers; the index of the local file |

## Where the code departs from its comments or from RFC 1035

The model follows the code; each point is a theorem.

- A name written without compression decodes to itself exactly when it is not empty, has no empty label and no label of
  more than 191 octets (`NameCodec.PlainNameRoundTrip`). RFC 1035 stops at 63; the code has no such check, and takes
  length octets from 192 on for pointers. The empty name is written as two zero octets and read as one.
- The hash table keeps 50 octets of a key and the string that memory holds behind them (`HashTable.KeyStored`). With
  compression, and with at most l octets in such a string, the first name of a message decodes to itself, whatever memory
  holds, exactly when it is such a name and none of its label suffixes of 50 to 50 + l octets agrees in its first 50 with a
  longer one and lies in the same bucket (`ClashingKeys.FirstNameExactly`); a message of such names does, within the reach
  of pointers and until the table is rescaled, exactly when no such label suffix of a name follows one that agrees with it
  and lies in the same bucket (`StoredMessages.SurvivesExactly`; for any size and any hash function
  `StoredMessages.SurvivesAnyHash`). Even with a zero behind every key there is a name of 61 octets that is written as a
  label and a pointer to itself (`ClashingKeys.PointsAtItself`). Written again, a name is sure to cost two octets exactly
  when it is shorter than 50, or has 50 and a zero is sure to follow (`ClashingKeys.SeenAgain`).
- A pointer leads to the registered offset exactly when that is below 2^14 (`NameCodec.PointerFits`).
- `setOpcode` mirrors the opcode's bits on the wire: right exactly for 0, 6, 9 and 15 (`Flags.SetOpcodeMirrors`).
  `setRCODE` only adds bits (`Flags.SetRCODECorrect`).
- The hash table's `delete` is said to do nothing for an absent key; it counts one key less
  (`HashTable.HashTab.Delete`).
- `delete` halves one bucket to none exactly when it removes the last key of a one-bucket table, and then
  `hash % len` divides by zero (`Rescaling.AliveExactly`, `Rescaling.ChurnKills`, `Caches.Cache.CacheGet`). A cache for
  two entries or more in which nothing expires never gets there, a cache for one exactly when it loses its eleventh entry
  (`CacheTable.LivesWithoutExpiry`, `CacheTable.LivesForTen`); eleven values that expire take any cache there
  (`CacheTable.ExpiryKills`).
- `SafeEnque` can return without giving up its registration or freeing its node (`QueueMemory.NodesAccounted`), and
  `SafeDestroy` broadcasts without the queue's mutex, so that exactly the thread between its test and its wait misses
  the broadcast (`QueueBroadcast.MissedBroadcast`). After it, `SafeDestroy` can return, without a wake-up that nobody
  signalled, exactly if no `SafeEnque` has left early or is between its registration and its second look at the flag,
  and nobody has missed the broadcast unless a caller is about to signal (`QueueDrain.ReturnsExactly`); when it sets
  the flag, exactly if the first holds (`QueueDrain.DestroyReturnsExactly`). Both failures are reached
  (`QueueShutdown.LeakIsReachable`, `QueueShutdown.HangIsReachable`). A caller can use a destroyed mutex exactly when
  `SafeDestroy` can return and the caller was about to register when the flag was set (`QueueShutdown.InsideExactly`),
  but never a freed node (`QueueList.NoUseAfterFree`).
- Between the two halves of `CacheGet` the entry can be unlinked and freed; exactly then the value is read from freed
  memory (`TwoPhaseGet.TwoPhase`), and a run gets there (`TwoPhaseGet.FreedWhileHeld`).
- A dangling word at the end of the local file becomes a new address of the last domain (`FileReader.AgreesWithScan`).

## Model

| member | source | states |
|---|---|---|
| NameCodec.EntryStable | message/message.c:164-217 | Octets written later never disturb a table entry |
| NameCodec.DecNameStable | message/message.c:251-276 | Octets written after a name never change what it decodes to |
| NameCodec.DecNameMoreHops | message/message.c:265-270 | A name that decodes with some number of pointers allowed decodes to the same with more |
| NameCodec.PointerFits | message/message.c:139-145 | A pointer targets the registered offset exactly when the offset is below 0x4000 |
| NameCodec.PointerBits | message/message.c:140-143 | The pointer's octets are 0xc000 or-ed with the offset |
| NameCodec.LowSixBits | message/message.c:266 | Masking an octet with 0x3f leaves its remainder modulo 64 |
| NameCodec.EmitNameOctets | message/message.c:150-193 | A call appends exactly the octets that the table at its start calls for and changes none before |
| NameCodec.EmitNameTable | message/message.c:164-186 | The table depends on earlier octets only through their number, so patching them is harmless |
| NameCodec.PlainNameRoundTrip | message/message.c:150-276 | Without compression a name is read back, up to its last octet and whatever follows, if and only if it is a good name: not empty, no empty label, none over 191 octets |
| NameCodec.OnlyGoodNamesSurvive | message/message.c:255-265 | No plainly spelled name but a good one is read back, whatever follows it and however many pointers are allowed |
| StoredKeys.NameSound | message/message.c:150-193 | One compressed name, whatever memory and the hash function do: if, of the names so far and this one, no label suffix is found under the key of a clashing one before it, the name decodes where it was written, reading stops where writing stopped, a pointer in it leads to a label below its start, nothing before it changes, and every entry of the table decodes from its offset to the name it was made for, though made before its octets were complete |
| StoredKeys.HitsAreGenuine | cache/hash.c:95-104 | Under the same condition every lookup of the call that succeeds does so at an entry made for the very suffix looked for |
| StoredKeys.NamesComplete | message/message.c:161-188 | Under the same condition the table has entries for exactly the label suffixes of the names written so far |
| StoredKeys.FollowsMeans | message/message.c:228-246 | That one label suffix follows another means: in a later name, or later in the same name |
| ClashingKeys.FirstNameExactly | message/message.c:150-276 | For any assignment of names to buckets and any l: the first name of a compressed message, of at most 2048 labels, is read back, whatever strings of at most l octets memory holds behind the keys, if and only if it is good and none of its label suffixes of 50 to 50 + l octets agrees in its first 50 with a longer one in the same bucket |
| ClashingKeys.OnlyGoodSurvive | message/message.c:150-276 | Whatever memory and the hash function do, no other first name survives compression than a good one |
| ClashingKeys.PointsAtItself | message/message.c:150-276 | With the code's own hash function and a zero behind every key, "aaaaaaaaai." five times and "aaaaaa" is written as its first label and a pointer to itself, which decodes for no number of pointers |
| ClashingKeys.SeenAgain | message/message.c:155-176 | The same name once more, of fewer than 2048 labels, costs two octets, whatever memory holds, if and only if it is shorter than 50 octets, or has 50 and only a zero can follow |
| StoredKeys.ShortestName | message/message.c:155-176 | For names of fewer than 50 octets no octets that decode to the name with a pointer to a registered offset are fewer than the encoder's |
| StoredKeys.ShortIsPerfect | cache/hash.c:36-104 | With names of fewer than 50 octets the table loses nothing and confuses nothing: the run is that of a finite map |
| StoredKeys.RescaledAt | cache/hash.c:72-92 | A new table keeps its 1024 buckets exactly until it has 2048 keys |
| Messages.RoundTrip | message/message.c:228-326 | Whole messages: any good message, written without compression, decodes to itself with the data_length values that encoding left in it, and the cursor ends at the returned length, whatever follows in the buffer; the same, below 2^14 octets, with compression through a table that keeps every key whole (StoredMessages.ShortIsPerfect says when that is the table, StoredMessages.RoundTrip what holds of it always) |
| Messages.RRRoundTrip | message/message.c:206-323 | One record, RDLENGTH patch included |
| Messages.QuestionRoundTrip | message/message.c:196-298 | One question |
| Messages.SectionRoundTrip | message/message.c:238-324 | One section |
| Messages.HeaderReads | message/message.c:122-290 | The header's fields are read back |
| Messages.DecRRMeans | message/message.c:303-322 | What a record decodes to, by its octets: after the name TYPE, CLASS, TTL and RDLENGTH, most significant octet first; RDATA is read as a name if and only if the type is 2 or 5, and as RDLENGTH octets otherwise; the next record starts RDLENGTH octets after it |
| Messages.DecQuestionMeans | message/message.c:291-298 | The same for a question |
| Messages.PlainQueryRoundTrip | message/message.c:228-326 | An uncompressed one-question query decodes to itself from all its octets if and only if its name is good |
| StoredMessages.RoundTrip | message/message.c:228-326 | Whole compressed messages of at most 2^14 octets, whatever memory and the hash function do: a good message in which no label suffix is found under the key of a clashing one before it decodes to itself with the data_length values that encoding left in it, and the cursor ends at the returned length |
| StoredMessages.SurvivesExactly | message/message.c:228-326 | For any assignment of names to buckets and any l: a good message, of at most 2^14 octets uncompressed and 2048 labels, comes back, whatever strings of at most l octets memory holds behind the keys, if and only if no label suffix of 50 to 50 + l octets follows one that agrees with it in its first 50 and lies in the same bucket |
| StoredMessages.SurvivesAnyHash | message/message.c:228-326 | The same for any number of labels, rescaling included, and over all hash functions: if and only if no label suffix of 50 to 50 + l octets follows one that agrees with it in its first 50 |
| StoredMessages.QueryExactly | message/message.c:228-326 | A compressed one-question query, of at most 2^14 octets and 2048 labels, comes back as it was sent, whatever memory holds, if and only if its name is good and none of its label suffixes of 50 to 50 + l octets agrees in its first 50 with a longer one in the same bucket |
| StoredMessages.CompressionPreservesMeaning | message/message.c:12-193 | Both settings of COMPRESS give buffers that decode to the same message apart from the data_length of CNAME and NS records, if the message is good, is compressed to at most 2^14 octets and has no label suffix that is found under the key of a clashing one |
| StoredMessages.NeverLonger | message/message.c:150-193 | The compressed message is never longer, names that clash included |
| StoredMessages.UpToSteps | message/message.c:228-246 | After the questions and any number of sections of a good message in which no label suffix is found under the key of a clashing one, the names in the table are exactly the label suffixes of all names so far, and the section just written decodes |
| StoredMessages.SeenCostsTwo | message/message.c:155-176 | After any number of records of a section of such a message, a name of fewer than 50 octets costs two octets if and only if it is a label suffix of a name already written |
| StoredMessages.ShortIsPerfect | message/message.c:228-246 | Messages whose names are all shorter than 50 octets are encoded as with a table that keeps every key whole |
| Codec.EncodeThenDecode | message/message.c:228-326 | On the heap: a buffer that was written by the encoder is read by the decoder, whatever it held before and holds behind; the new message is the one sent, and reading ends where writing did |
| WireFormat.HeaderLayout | message/message.c:122-135 | Section 4.1.1 of RFC 1035: every header field at its place, most significant octet first, the flag octets included |
| WireFormat.QuestionLayout | message/message.c:196-203 | Section 4.1.2 of RFC 1035 |
| WireFormat.RecordLayout | message/message.c:206-221 | Section 4.1.3 of RFC 1035: TYPE, CLASS, TTL and RDLENGTH at their places, RDLENGTH being the octets of RDATA that end the record |
| WireFormat.PlainNameLayout | message/message.c:161-192 | Section 3.1 of RFC 1035: an uncompressed name is its labels, each after its length, and a zero |
| WireFormat.PointerLayout | message/message.c:139-145 | Section 4.1.4 of RFC 1035: two one-bits, then the offset if it fits |
| Flags.FlagRoundTrip | message/message.c:114-286 | Mirroring the flag word's octets out and in again gives the word back |
| Flags.WireRoundTrip | message/message.c:114-286 | and the other way round |
| Flags.OctetsAre | message/message.c:122-286 | The octet with QR is the first of the two, going out and coming in |
| Flags.FieldsDetermineWire | message/message.c:122-129 | The fields of section 4.1.1 of RFC 1035 cover the two flag octets |
| Flags.SetRespCorrect | message/message.c:31-33 | QR is set and the other 15 bits stay |
| Flags.SetQueryCorrect | message/message.c:26-28 | QR is cleared and the other 15 bits stay |
| Flags.SetFlagCorrect | message/message.c:44-46 | A flag bit is set on the wire at its mirrored place, and nothing else |
| Flags.FlagNumbers | include/message.h:39-42 | AA, TC, RD and RA name the bits of section 4.1.1 of RFC 1035 |
| Flags.SetRCODECorrect | message/message.c:51-59 | The code's low octet is added to the wire's second octet and no other bit changes; with a four-bit code the RCODE is the one asked for if and only if the old one has no other bits |
| Flags.SetOpcodeMirrors | message/message.c:36-39 | The wire carries the opcode's bits reversed: for four-bit opcodes, right if and only if they are a palindrome |
| Flags.OpcodeWitness | message/message.c:36-39 | IQUERY goes out as 8 and STATUS as 4 |
| MessageObject.Message.constructor | message/message.c:18-23 | A new message is all zero |
| MessageObject.Message.SetQuery | message/message.c:26-28 | On the wire QR becomes 0 and the other 15 bits stay |
| MessageObject.Message.SetResp | message/message.c:31-33 | On the wire QR becomes 1 and the other 15 bits stay |
| MessageObject.Message.SetOpcode | message/message.c:36-39 | The wire's OPCODE becomes a four-bit opcode's bits, mirrored, and no other bit changes; a wider one spills over, as stated |
| MessageObject.Message.SetFlag | message/message.c:44-46 | On the wire exactly the bit of section 4.1.1 of RFC 1035 that the flag stands for is set |
| MessageObject.Message.SetRCODE | message/message.c:51-59 | The code's low octet is added to the wire's second octet and no other bit changes |
| MessageObject.Message.AddQuestion | message/message.c:62-73 | At most 32 questions; one more at the end, or none and 0 |
| MessageObject.Message.AddRR | message/message.c:78-87 | At most 32 records a section; one more at its end, or none and 0 |
| MessageObject.Message.ReleaseAdditionalRR | message/message.c:104-111 | ARCOUNT is zero and the message is encoded to its end with the authority section; the other sections stay |
| Encoder.GetPos | message/message.c:139-145 | Pointer of a registered name, or 0 |
| Encoder.EncodeName | message/message.c:150-193 | The loop over a buffer with label lengths patched backwards and the real hash table refines the specification: octets, table and length; nothing after the name changes |
| Encoder.EncodeQuestion | message/message.c:196-203 | A question, written in place, refines the specification |
| Encoder.EncodeText | message/message.c:217-218 | A name written two octets ahead of its length, which is then patched in, gives what writing the length first would give |
| Encoder.EncodeRR | message/message.c:206-221 | A record, written in place, refines the specification; data_length is made true |
| Encoder.EncodeHeader | message/message.c:122-135 | The header's twelve octets |
| Encoder.EncodeSection | message/message.c:238-242 | A section, its records updated in the message |
| Encoder.Encode | message/message.c:228-246 | `encode` on a buffer: the octets of the specification, their number, and the message as it is left |
| Encoder.RoomIsExact | message/message.c:222-246 | The room that `encode` asks for is the length of the uncompressed message |
| Decoder.DecodeName | message/message.c:251-276 | The loop with recursion at pointers stores the specified name and its NUL, touches nothing before, and returns where to go on; it terminates with the pointers |
| Decoder.DecodeLabels | message/message.c:259-275 | The loop, a dot too many at the end included |
| Decoder.DecodePointer | message/message.c:265-271 | The recursion |
| Decoder.ReadName | message/message.c:294-312 | A name field reads as the decoded name |
| Decoder.DecodeQuestion | message/message.c:291-298 | A question read from a buffer |
| Decoder.DecodeRR | message/message.c:303-322 | A record read from a buffer, as a name if and only if its type is 2 or 5 |
| Decoder.Decode | message/message.c:279-326 | `decode` on a buffer builds the message of the specification |
| HashTable.KeyStored | cache/hash.c:36-42 | A key is stored as given, whatever was in memory, if and only if it is shorter than 50 octets; of a longer one the first 50 |
| HashTable.Hash | cache/hash.c:45-50 | The loop computes the hash, wrap-around and signed char included |
| HashTable.HashMeans | cache/hash.c:45-50 | The hash is 39 times the sum of the octets as signed characters, on 32 bits, and the bucket its remainder |
| HashTable.HashTab.constructor | cache/hash.c:12-20 | An empty table of 1024 buckets |
| HashTable.HashTab.Search | cache/hash.c:95-104 | Lookup in the finite map that the chains represent |
| HashTable.HashTab.Insert | cache/hash.c:72-92 | Map update; num counts new keys; the table doubles exactly when num reaches twice len, at a stated cost |
| HashTable.HashTab.DeleteNode | cache/hash.c:107-120 | The chain without the node of the key, wherever it is |
| HashTable.HashTab.Delete | cache/hash.c:123-131 | Map removal; num goes down whether the key was there or not, from 0 to 2^32 - 1, so it counts the keys if and only if it was; the table halves exactly when twice num, on 32 bits, is less than len |
| HashTable.HashTab.Rescale | cache/hash.c:53-68 | Every node is relinked once into its new bucket, the map and its values stay, and work grows by the buckets allocated and by the buckets and nodes that the loops count |
| HashTable.HashTab.RelinkChain | cache/hash.c:59-64 | One chain moved node by node, and counted |
| Rescaling.AmortisedRescaling | cache/hash.c:53-130 | Over any run of m operations that keeps its table alive, all rescaling work is at most 5 * (m + 1024), len is a power of two and num < 2 * len |
| HashTable.WorkIsAmortised | cache/hash.c:53-131 | The counters of a table in memory keep that bound as long as only keys that are there have been removed |
| Rescaling.AliveExactly | cache/hash.c:98-130 | A run keeps at least one bucket throughout if and only if it never removes the last key of a one-bucket table |
| Rescaling.ChurnKills | cache/hash.c:128-130 | Eleven times one key in and out, and no bucket is left |
| LinkLists.LinkList.constructor | cache/linkList.c:24-29 | An empty ring |
| LinkLists.LinkList.PutInHead | cache/linkList.c:31-37 | The ring in both directions, with the node first |
| LinkLists.LinkList.PutInTail | cache/linkList.c:39-45 | The ring in both directions, with the node last |
| LinkLists.LinkList.Remove | cache/linkList.c:47-51 | The ring in both directions, without the node |
| LinkLists.LinkList.GetFirst | cache/linkList.c:67-69 | The first node, or null |
| LinkLists.LinkList.GetLast | cache/linkList.c:71-73 | The last node, or null |
| CacheModel.PutGood | cache/cache.c:59-117 | Keys stay unique and the size within maxSize |
| CacheModel.GetGood | cache/cache.c:124-161 | Keys stay unique and the size within maxSize |
| CacheModel.PutMeans | cache/cache.c:59-117 | The entry in front has the key, value, TTL and time of the put; the others were there before and have other keys; a full cache loses one |
| CacheModel.GetMeans | cache/cache.c:124-161 | A cached value is returned, and its entry stays and comes to the front, if and only if no more time has passed since it was put than its TTL; otherwise nothing is returned and the entry goes; entries for other keys stay |
| CacheRuns.HitIsLatest | cache/cache.c:59-161 | Over any run, a get hits if and only if the key is still cached and no more time has passed since its latest put than that put allows, and then returns the value of that put |
| CacheRuns.LatestPutMeans | cache/cache.c:59-117 | The latest put is the last put of the key in the run, with its value, TTL and time |
| CacheRuns.Inclusion | cache/cache.c:59-161 | LRU inclusion: fed with the same operations and clock readings, a smaller cache holds a recency-ordered part of a larger one, entry for entry, and every hit of the smaller is a hit of the larger with the same value |
| CacheRuns.Retention | cache/cache.c:59-161 | An entry no older than its TTL still hits while fewer than maxSize other keys have been put or hit since it was last touched |
| CacheRuns.StackDistance | cache/cache.c:59-161 | Without expiry, an entry is still there if and only if fewer than maxSize distinct other keys have been touched since |
| CacheTable.LivesExactly | cache/cache.c:59-161 | Over any run of puts and gets, the table keeps a bucket throughout if and only if the only entry is never taken out of a one-bucket table |
| CacheTable.TableCounts | cache/cache.c:59-161 | Every run of the cache is a possible run of the table, which counts the entries |
| CacheTable.LivesWithoutExpiry | cache/cache.c:89-161 | A cache for two entries or more in which no get meets an expired entry always keeps a bucket |
| CacheTable.LivesForTen | cache/cache.c:59-161 | A cache for one entry keeps a bucket if and only if at most ten entries are ever taken out |
| CacheTable.ExpiryKills | cache/cache.c:134-146 | Whatever the size, eleven values that are each found expired leave the table no bucket |
| Caches.Cache.constructor | cache/cache.c:21-33 | An empty cache |
| Caches.Cache.CachePut | cache/cache.c:59-117 | On the heap, ring and table stay well formed and in step, the contents change as the list model says, with the new value, TTL and time in front, and the history of the table grows by what the operation means for it |
| Caches.Cache.CacheGet | cache/cache.c:124-161 | The same for a get: a cached value is returned, and its key stays, if and only if no more time has passed since it was put than its TTL; a key that is not cached changes nothing; the table loses its last bucket if and only if the last key of a one-bucket table expires |
| Caches.TableOfRun | cache/cache.c:59-117 | For a cache on the heap that has gone through any run: its table has the buckets of the run, and a put may be called if and only if the run with it keeps a bucket |
| Caches.MadeMore | cache/cache.c:59-161 | Contents and history grow with the run as puts and gets change them |
| Caches.Cache.Refresh | cache/cache.c:65-87 | An entry updated in place and moved to the front |
| Caches.Cache.Evict | cache/cache.c:90-102 | The last entry leaves list and table |
| Caches.Cache.Drop | cache/cache.c:94-145 | An entry leaves list and table |
| Caches.Cache.AddNew | cache/cache.c:104-116 | A new entry first in the list and in the table |
| Caches.Cache.Touch | cache/cache.c:147-149 | An entry moved to the front |
| TwoPhaseGet.PutRefines | cache/cache.c:59-117 | A put that keeps the identity of an entry it updates is the list model's put |
| TwoPhaseGet.LookRefines | cache/cache.c:128-150 | The write-locked half of a get is the list model's get |
| TwoPhaseGet.LiveStep | cache/cache.c:90-146 | A step frees an entry if and only if it evicts it or finds it expired |
| TwoPhaseGet.TwoPhase | cache/cache.c:124-161 | Over any interleaving, the entry read in the second half is still allocated if and only if no step in between unlinked it, and then it is the cache's entry for the key and holds the latest value put for it |
| TwoPhaseGet.FreedWhileHeld | cache/cache.c:148-160 | A cache for one entry, a get and a put of another key in between: the entry is freed while it is still to be copied |
| QueueSafety.LocksStep | pool/queue.c:37-121 | Every step keeps the threads between lock and unlock those that the mutexes are held by |
| QueueList.MutualExclusion | pool/queue.c:47-91 | At most one thread in each critical section, the destroyer included |
| QueueSafety.ShutStep | pool/queue.c:102-121 | Every step keeps: once `usedNum` has been seen at zero no thread is at an access to the list |
| QueueList.NoUseAfterFree | pool/queue.c:37-121 | In every interleaving, shutdown included, no step dereferences null or a freed node, and none is freed twice |
| QueueList.ShutdownSafety | pool/queue.c:102-121 | While and after SafeDestroy frees, no other thread dereferences a node |
| QueueList.Fifo | pool/queue.c:53-90 | What is taken is a prefix of what was linked; the rest is what the pointers from `head->next` on lead through; `head == tail` says that nothing is left |
| QueueList.MemStep | pool/queue.c:37-121 | The inductive invariant behind these |
| QueueList.DerefsCover | pool/queue.c:37-121 | The nodes that a step is said to dereference are all that it reads and changes |
| QueueMemory.NodesAccounted | pool/queue.c:40-121 | The allocated nodes are the head, the linked ones, those that one thread each has in hand, and one for each SafeEnque that left early, less those that SafeDestroy has freed |
| QueueMemory.NothingLeft | pool/queue.c:48-121 | When SafeDestroy has returned and no thread has a node in hand, as many nodes are left as calls of SafeEnque have left early |
| QueueWakeups.NoLostWakeup | pool/queue.c:44-90 | Before shutdown, while anyone sleeps, items waiting are no more than threads that owe a signal or are about to take one |
| QueueWakeups.NotStranded | pool/queue.c:44-90 | A worker asleep and nobody under way means that nothing is queued |
| QueueWakeups.AttendedSignal | pool/queue.c:56 | The signal that a linking thread owes is what keeps it so |
| QueueShutdown.UsedNumCounts | pool/queue.c:40-96 | `usedNum` is the callers between increment and decrement plus those that left early |
| QueueDrain.DestroyReturnsExactly | pool/queue.c:37-121 | Before the flag is set: SafeDestroy can still return, whether or not threads may wake up unasked, if and only if no SafeEnque has left early and none is between its registration and its second look at the flag |
| QueueDrain.ReturnsExactly | pool/queue.c:37-121 | In every state in which SafeDestroy waits: some continuation without unasked wake-ups lets it return if and only if there is no such SafeEnque and the broadcast is still to come, or nobody has missed it, or a caller that has linked or is about to link will signal; some continuation with unasked wake-ups if and only if there is no such SafeEnque |
| QueueDrain.LeakBlocksDestroy | pool/queue.c:40-109 | With such a SafeEnque, no continuation lets SafeDestroy leave its loop |
| QueueDrain.LostBlocksDestroy | pool/queue.c:44-109 | With a thread that has missed the broadcast and nobody to signal, no continuation without unasked wake-ups lets SafeDestroy leave its loop |
| QueueShutdown.LeakIsReachable | pool/queue.c:40-109 | A SafeEnque leaves early and SafeDestroy is still waiting |
| QueueShutdown.InsideExactly | pool/queue.c:37-121 | A caller can be inside the queue after SafeDestroy has returned, whether or not threads may wake up unasked, if and only if SafeDestroy can return and a caller is between its first look at the flag and its registration when the flag is set |
| QueueShutdown.NobodyInside | pool/queue.c:38-121 | Without such a caller, none is inside from the moment `usedNum` is seen at zero |
| QueueBroadcast.MissedBroadcast | pool/queue.c:74-104 | A thread can be asleep after the broadcast if and only if the broadcast came between its test and its wait |
| QueueBroadcast.OneMissesBroadcast | pool/queue.c:74-104 | At any time after it, at most one thread waits or is bound to |
| QueueShutdown.StuckForever | pool/queue.c:74-108 | Then SafeDestroy and it wait for each other, whatever runs, short of an unasked wake-up |
| QueueShutdown.HangIsReachable | pool/queue.c:74-108 | One worker and the destroyer get there, and then SafeDestroy returns only with an unasked wake-up |
| QueueShutdown.LateCallerIsReachable | pool/queue.c:38-118 | A caller can be about to lock a destroyed mutex |
| ThreadPool.RunAtMostOnce | pool/thread_pool.c:22-60 | A task is run by one worker, once, and is the one that was added under its number |
| ThreadPool.Conservation | pool/thread_pool.c:22-60 | Every task handed to AddTask is still being added, or was given up because the flag was set, or has been run to its end, or is with exactly one worker, or is queued |
| Server.KeyInjective | server.c:60-73 | Different name and type pairs have different keys |
| Server.KeyText | server.c:60-73 | The key is the name, a colon, and "A", "NS", "CNAME" or "AAAA" for types 1, 2, 5 and 28; other types have none |
| Server.Item.constructor | server.c:313-316 | Type, number, deadline, name, and ten addresses and strings are all zero or empty |
| Server.Item.AddRR2Item | server.c:106-114 | One record more in the item's arrays, and its owner and deadline |
| Server.WithRRMeans | server.c:106-114 | What it adds in full: owner, type, one more record, the deadline, and the first four octets of an address or the first 128 of a name |
| Server.PutItem | server.c:124-130 | An item of a type is put under its key with what is left of its time; one without is not |
| Server.GetItem | server.c:117-121 | The cache's answer for the key |
| Server.Item2Msg | server.c:78-102 | If the type is 1 and the first address is four zero octets, the second flag octet is or-ed with 3, an RCODE of 0 becomes 3, and nothing else changes; otherwise the item's records come behind the answers, up to 32 in all |
| Server.AnswerRRMeans | server.c:78-102 | Each of these records in full: owner, type, class 1, the seconds until the deadline on 32 bits, the address and its length 4, or the name |
| Server.GatherAnswers | server.c:321-329 | The answers of a reply, sorted by type into three items, in order; an item has its type, 1, 2 or 5, if the reply has a record of it, and 0 otherwise |
| Server.CacheReply | server.c:310-333 | The answers of a reply of each of the types 1, 2 and 5 become one entry, under the last one's name and for as long as that one allows; a type that the reply lacks leaves the cache as it was |
| Server.CachedAnswers | server.c:78-333 | After any run of the cache, a hit on a gathered set gives its owner, type, data and order, every TTL being the last record's less the time elapsed, from 0 to what it was; blocked if and only if the first address is zero |
| FileReader.ReadWord | tool/file_reader.c:12-47 | `%s`: white space and a word |
| FileReader.SkipSpaceMeans | tool/file_reader.c:12-47 | White space is octets 32 and 9 to 13, and ends at the first other one |
| FileReader.WordEndMeans | tool/file_reader.c:12-47 | A word is of other octets, and ends at the first of these |
| FileReader.WordsAre | tool/file_reader.c:9-15 | A file with an address, a space, a domain and a line feed for each pair has exactly these words |
| FileReader.PairsAnswered | tool/file_reader.c:9-49 | On such a file a domain is answered with the address of the last pair that has it, and with nothing if and only if there is none |
| FileReader.Reader.BuildIndex | tool/file_reader.c:9-15 | One pass leaves an index that leads from each domain to where its address stands |
| FileReader.Reader.GetARecord | tool/file_reader.c:40-49 | What the index leads to, or nothing; on a file written as pairs, the address of the last pair with the domain |
| FileReader.LastIpIsLast | tool/file_reader.c:9-15 | The linear scan finds the last pair with the domain, and nothing if and only if there is none |
| FileReader.AgreesWithScan | tool/file_reader.c:9-49 | Index and linear scan agree for every domain if and only if no word dangles at the end or it repeats the last address |

## Left out

- Sockets, forwarding, timeouts, argument parsing, logging and the rest of `handler`: plumbing around what is modelled.
- `showMsg`, `showMem`, `check`, `checkItem`, `setRRName` and the like: printing and plain copies.
- Failure of `malloc`, the functions that destroy a structure, and the cache's copy and delete callbacks: stored data are immutable values, and freed nodes are forgotten, except in the queue and in TwoPhaseGet, where what is freed matters.
- Encoder.EncodeName: on the heap, with compression, names shorter than 50 octets; longer ones, which the table stores without their end, are in StoredKeys on sequences of table entries, without the chains and buckets in memory. Without compression any length.
- Encoder.EncodeQuestion: the same bound on its name.
- Encoder.EncodeText: the same bound on its name.
- Encoder.EncodeRR: the same bound on its names; a payload whose data_length is that of its data.
- Encoder.EncodeSection: the same bound on the names of its records.
- Encoder.Encode: the same bound on all names; a buffer with room for the uncompressed message is required, as its comment asks.
- Codec.EncodeThenDecode: messages that both halves take, as their lines here say.
- ClashingKeys.FirstNameExactly: at most 2048 labels, so that the table is not rescaled before the last of them is looked for; StoredKeys.NameSound has no such bound. What strings memory can hold behind a key is arbitrary up to their length l; that padding and pointers follow in the node, and which octets these can have, is not modelled.
- ClashingKeys.SeenAgain: the same.
- StoredMessages.SurvivesExactly: the same; StoredMessages.RoundTrip and StoredMessages.SurvivesAnyHash have no bound on labels.
- StoredMessages.QueryExactly: the same.
- Decoder.Decode: buffers that decode, as `decode` has no length to check against; at most 32 entries a section and names of fewer than 256 octets, for which the message has room.
- Messages.RoundTrip: a payload is a name exactly for CNAME and NS, because `decode` goes by the type and `encode` by `data_type`; RDATA of other types that holds names is raw octets and stays so, old pointers included.
- HashTable.HashTab.Insert: keys shorter than 50 octets; `num * 2` and `len << 1` beyond 32 bits are not modelled.
- HashTable.HashTab.Delete: leaves out the calls that rescale a table to no bucket while it has other keys, which the code loses then; that takes a `num` that no longer counts the keys.
- Caches.Cache.CachePut: requires a table with a bucket that eviction does not take away, because the code divides by the number of buckets; keys shorter than 50 octets.
- Caches.Cache.CacheGet: one call at a time, one clock reading per call; interleaved calls are in TwoPhaseGet.
- TwoPhaseGet.TwoPhase: an identity is not used again after it is freed, so what a reused block would hold is not modelled.
- Liveness: that SafeDestroy, ClosePool or a queued task gets anywhere under every fair scheduler; what is proved is when SafeDestroy can return. Tasks still queued at shutdown are dropped by the code.
- The pool's fields and `pthread_create` and `pthread_join`: the threads are there from the start, their number arbitrary and fixed.
- Server.Item.AddRR2Item: fewer than ten records in the item and an owner that fits its field; beyond that the code writes past its arrays.
- Server.PutItem: keys shorter than 50 octets, as Caches.Cache.CachePut.
- Server.CacheReply: a cache for two entries or more, whose table then keeps a bucket, and keys shorter than 50 octets.
- Server.GatherAnswers: at most ten records a type and readable ones, one clock reading for all; the code bounds neither. Answers that mix owners or chain CNAMEs are left out of Server.CachedAnswers.
- Server.CachedAnswers: items put by `putItem` alone and a clock that does not run backwards.
- FileReader.Reader.BuildIndex: domains shorter than 50 octets and a file of more than one word, since the first domain would be whatever was in memory; overlong words overflow the code's buffers and are not modelled.
- The quality of the hash function: the theorems do not depend on it.
