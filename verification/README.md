# pdnsd, verified

A Dafny model of the DNS daemon pdnsd that Orbot embeds: its name and record codec, its
RR-set cache with lock, hash table and disk format, and its outgoing query machine with the
recursive resolver. The properties hold for all inputs, for runs of any length and for all
outcomes of system calls; nothing was executed.

The model uses the shipped configuration: IPv4, UDP and TCP queries compiled in, all record
types of the default table cached. The current time is a parameter that is fixed within one
operation. Allocation, sockets, polling and replies are arbitrary at every point; where an
operation reports that memory has run out, its contract adds that it cannot fail otherwise
(`enough`). `realloc` with a size of zero frees a block and returns null, as in glibc and
bionic. A failed assertion ends the program. `tolower` and `toupper` are ASCII folding.

## Modules

- `DnsConstants`, `Powers`, `Memory`: numbers, return codes, allocation.
- `Names`, `NameCodec`, `NameCompression`, `CompressionRoundTrip`: names in length-byte
  notation, the decoder and the compressor (`dns.c`, `helpers.h`).
- `RecordData`, `RecordCodec`, `RecordRoundTrip`, `RecordReader`, `RecordExamples`: record data
  by type, what `add_rr` writes and what `rrs2cent` reads.
- `AnswerRun`, `AnswerPlan`, `AnswerMessage`: assembling an answer, with records that are taken
  back; which record is added to which section. `AnswerOnce` says what is in the message twice
  or missing, `AnswerExamples` has inputs.
- `CacheLock`: the read/write lock as a state machine over its critical sections.
- `AgeSort`, `AgeList`: insertion and merge sort of the age list, on sequences and on the
  linked nodes themselves.
- `RRTypes`, `CacheEntry`, `CacheState`, `CacheSteps`, `CacheMerge`, `CacheErase`,
  `CachePurge`, `CacheLookup`, `CacheWork`, `CacheAdd`, `CacheEvict`, `RRCache`: the cache.
  `RRCache.Cache` is the object; the other modules say what its operations do to values.
  `CacheExamples` has inputs on which the cache does less than one might expect.
- `DnsHash`: the hash table, which implements the map that `RRCache` uses.
- `DiskFormat`, `DiskRoundTrip`, `DiskCache`, `DiskTruncation`: the permanent cache file, also
  when writing it fails half-way.
- `QueryMachine`, `ParallelQuery`, `Resolver`: outgoing queries.

## Where the code does less than one might expect

Each of these comes with its exact condition and an input.

- Local *entries* are not protected the way local *sets* are: a negative answer replaces a
  DF_LOCAL entry that has no local sets (`CacheAdd.LocalEntryReplaced`,
  `CacheExamples.LocalEntryLost`), and a negatively cached set turns a local negative entry
  into a positive one (`CacheAdd.LocalNegativeOverridden`, `CacheExamples.LocalNegativeLost`).
- An entry that is new to the cache is filed as it is, so conflicting sets in it stay
  (`CacheAdd.AddConflictFree`, `CacheExamples.ConflictStays`).
- Sets of a DF_LOCAL entry that are not local come back from disk without their records, other
  sets without what is beyond 255 records or 65535 bytes (`DiskCache.RecordsBack`,
  `CacheExamples.RecordLostOnDisk`, `DiskRoundTrip.LongDataOnDisk`).
- `invalidate_record` keeps the age order only if nothing older than its records is left that
  was not invalidated before (`CacheLookup.InvalidatedOrder`, `CacheExamples.OrderLost`).
- `rrs2cent` expands compressed names in IPSECKEY, RRSIG and NSEC data, so the cache can hold
  data that RDLENGTH cannot describe; `add_rr` cuts the length off, and the answer cannot be
  read (`RecordRoundTrip.RecordReads`, `AnswerRun.AnswerReads`,
  `RecordExamples.LongSignature`).
- `p_recursive_query` can return -1 instead of an error code, when time is up just after TCP
  queries have fallen back to UDP and no answer was saved. That needs a server in the last batch
  that is asked over TCP first, and with one it can happen (`ParallelQuery.RecursiveQuery`,
  `ParallelQuery.CallAgainReturned`).
- The receive buffer of a query can be freed twice: `realloc_or_cleanup` frees a block that
  `realloc` has freed already when a TCP server announces an empty message while the buffer of
  its first answer is held. This can happen for a query exactly if it has a name, may use TCP,
  and has recursion desired or EDNS configured (`QueryMachine.QueryStat.MayFreeTwice`,
  `ParallelQuery.RecursiveQuery`, `QueryMachine.FreesTwice`).
- Nothing limits how long `p_recursive_query` polls one batch: the loop (dns_query.c:2211-2443)
  tests the time only when poll reports no event, and QS_UDPRECEIVE ignores datagrams that do
  not belong to the query. The loop ends exactly if the number of events without effect is
  finite, and the number of rounds is bounded by it and by the work there is
  (`ParallelQuery.RecursiveQuery`, `ParallelQuery.PollsOnAndOn`).
- After a name error the OPT record is added without looking at the UDP limit. The message
  exceeds the limit exactly if it did so before, or if EDNS was asked for and there are fewer
  than eleven bytes left (`AnswerMessage.Answer.Compose`, `AnswerExamples.NameErrorTooLong`);
  udp_answer_thread then cuts it off inside the OPT record (dns_answer.c:1421-1423).
- SOA records are not marked as added, so one can be in the answer and in the authority section
  (`AnswerOnce.MessageRepeats`, `AnswerExamples.SoaIsRepeated`).
- Records that were taken back for lack of space are marked as added all the same
  (`AnswerOnce.MessageMissing`, `AnswerExamples.AddressIsTakenBack`).

## Model

| member | source | states |
|---|---|---|
| `Names.MatchSuffix` | library/orbotservice/src/main/jniLibs/pdnsd/src/dns.c:204-238 | two names share their last m labels, up to case, exactly as far as the match count says |
| `Names.MatchUltrametric` | library/orbotservice/src/main/jniLibs/pdnsd/src/dns.c:204-238 | names that each share m trailing labels with a third share m trailing labels with each other (the fact behind the choice of compression targets) |
| `Names.MatchSymmetric` | library/orbotservice/src/main/jniLibs/pdnsd/src/dns.c:204-238 | the match count does not depend on the order of the two names |
| `NameCodec.DecompressName` | library/orbotservice/src/main/jniLibs/pdnsd/src/dns.c:44-156 | on arbitrary bytes: terminates, reads only inside the message, returns at most 256 bytes; succeeds iff the field denotes a name under the reference decoder, then with its encoding and the exact number of bytes consumed; RC_TRUNC iff the field ends inside the name |
| `NameCodec.FollowPointers` | library/orbotservice/src/main/jniLibs/pdnsd/src/dns.c:60-156 | the part after the first jump: a name is produced iff the reference decoder finds one that fits the buffer, within 255 jumps |
| `NameCodec.DecodeExtend` | library/orbotservice/src/main/jniLibs/pdnsd/src/dns.c:44-156 | bytes appended to a message never change a name that could be read before |
| `NameCodec.DecodeMoreHops` | library/orbotservice/src/main/jniLibs/pdnsd/src/dns.c:60-156 | a larger jump limit never changes a name that could be read |
| `NameCompression.CollectLengths` | library/orbotservice/src/main/jniLibs/pdnsd/src/dns.c:209-222 | the first loops of domain_match: the length byte of every label and the end of the name |
| `NameCompression.SameLabelBackwards` | library/orbotservice/src/main/jniLibs/pdnsd/src/dns.c:226-232 | the backward comparison accepts a pair of labels iff they are equal up to ASCII case |
| `NameCompression.DomainMatch` | library/orbotservice/src/main/jniLibs/pdnsd/src/dns.c:204-238 | returns the number of trailing labels in common and where they start in each name |
| `NameCompression.CompressName` | library/orbotservice/src/main/jniLibs/pdnsd/src/dns.c:248-300 | emits the bytes and extends the list as the reference choice says; the output is never longer than the input; it fails only if memory runs out |
| `NameCompression.EmittedNotLonger` | library/orbotservice/src/main/jniLibs/pdnsd/src/dns.c:242-300 | compressed output has between one byte and the size of the input |
| `CompressionRoundTrip.ChooseLiteral` | library/orbotservice/src/main/jniLibs/pdnsd/src/dns.c:255-290 | the list element that is chosen carries the matched suffix as literal label bytes, also when candidates beyond 0x3fff were rejected |
| `CompressionRoundTrip.BeatenIsFar` | library/orbotservice/src/main/jniLibs/pdnsd/src/dns.c:255-290 | an element that carries the suffix through a pointer while no earlier element was usable is itself out of reach |
| `CompressionRoundTrip.GrownConsistent` | library/orbotservice/src/main/jniLibs/pdnsd/src/dns.c:248-300 | placing a name keeps the compression list consistent with the message |
| `CompressionRoundTrip.PutReads` | library/orbotservice/src/main/jniLibs/pdnsd/src/dns.c:44-300 | a name just placed reads back up to case, and takes exactly the emitted bytes, whatever follows |
| `CompressionRoundTrip.CompressionRoundTrip` | library/orbotservice/src/main/jniLibs/pdnsd/src/dns.c:44-300 | for every sequence of names placed at growing offsets with any bytes between: reading the final message at each offset succeeds, consumes exactly what was emitted and returns the name up to case |
| `RecordData.ParseFlat` | library/orbotservice/src/main/jniLibs/pdnsd/src/dns_answer.c:252-394 | record data that add_rr can walk over is the concatenation of the parts it finds |
| `RecordData.FlatParse` | library/orbotservice/src/main/jniLibs/pdnsd/src/dns_answer.c:252-394 | walking over data put together from parts that fit the layout finds these parts |
| `RecordCodec.PartsNotLonger` | library/orbotservice/src/main/jniLibs/pdnsd/src/dns_answer.c:252-394 | compressed record data never grows (the "got longer" assertions hold for every type) |
| `RecordCodec.DataNotLonger` | library/orbotservice/src/main/jniLibs/pdnsd/src/dns_answer.c:252-394 | the data of every valid record takes at most its uncompressed size |
| `RecordCodec.ReadDataValid` | library/orbotservice/src/main/jniLibs/pdnsd/src/dns_query.c:297-650 | whatever a message contains, data that rrs2cent hands to the cache passes the writer's assertions and the reader's own checks |
| `RecordCodec.ReadDataBound` | library/orbotservice/src/main/jniLibs/pdnsd/src/dns_query.c:297-650 | expanding a compressed name adds at most 254 bytes to the data of a record; data with a fixed layout is at most 1040 bytes long |
| `RecordCodec.LaidOutShort` | library/orbotservice/src/main/jniLibs/pdnsd/src/dns_query.c:297-560 | data of the types that add_rr walks over is at most 1040 bytes long |
| `RecordCodec.ReadRecordValid` | library/orbotservice/src/main/jniLibs/pdnsd/src/dns_query.c:238-650 | every record that is read has a valid owner name, a cached type, a 32-bit TTL and valid data, so add_rr can write it; the data may exceed 65535 bytes, by less than 254 |
| `RecordRoundTrip.PartsRead` | library/orbotservice/src/main/jniLibs/pdnsd/src/dns_query.c:302-560 | data written part by part is read back part by part, names up to case, and the compression list stays consistent |
| `RecordRoundTrip.DataReads` | library/orbotservice/src/main/jniLibs/pdnsd/src/dns_query.c:297-650 | for every type arm and data of any length: data written by add_rr is what rrs2cent caches, names up to case, when it is given the number of bytes written |
| `RecordRoundTrip.RecordReads` | library/orbotservice/src/main/jniLibs/pdnsd/src/dns_answer.c:213-418 | record round trip: same owner, type, TTL and data (names up to case), and exactly the written bytes consumed, each if and only if the data has at most 65535 bytes; the compression list is consistent in any case |
| `RecordExamples.LongSignature` | library/orbotservice/src/main/jniLibs/pdnsd/src/dns_query.c:587-615 | a TCP reply of 65535 bytes with an RRSIG record whose signer is compressed: rrs2cent caches 65536 bytes of data, and the record cannot be written so that it reads back |
| `RecordReader.ReadSegments` | library/orbotservice/src/main/jniLibs/pdnsd/src/dns_query.c:302-560 | the arms of rrs2cent that walk over names compute the reference reading, or RC_FORMAT |
| `RecordReader.IsNormal` | library/orbotservice/src/main/jniLibs/pdnsd/src/helpers.c:369-384 | true iff an uncompressed name ends within the first 256 bytes and the given length |
| `RecordReader.ReadRdata` | library/orbotservice/src/main/jniLibs/pdnsd/src/dns_query.c:297-650 | the switch over the types, with its length checks, computes the reference reading |
| `RecordReader.ReadOne` | library/orbotservice/src/main/jniLibs/pdnsd/src/dns_query.c:237-262 | one round of rrs2cent: owner, fixed fields and data, or the right error code |
| `RecordReader.RrToCache` | library/orbotservice/src/main/jniLibs/pdnsd/src/dns_query.c:184-214 | a record joins the entry of its name (up to case), or a new entry; when memory runs out, no record is added, and the entry concerned is the only one that may have changed, in its TTL or by an empty extension array, or all entries are gone |
| `RecordReader.WithRecordOk` | library/orbotservice/src/main/jniLibs/pdnsd/src/dns_query.c:184-214 | entries stay well accounted and their names stay distinct |
| `RecordReader.Rrs2Cent` | library/orbotservice/src/main/jniLibs/pdnsd/src/dns_query.c:230-678 | adds exactly the records a reader finds, in order (on an error those before it); counts OPT records and reports the first; keeps entries accounted, also when memory runs out; RC_FATALERR only then |
| `AnswerRun.TakeBackConsistent` | library/orbotservice/src/main/jniLibs/pdnsd/src/dns_answer.c:396-398 | after a record is taken back, the list element left behind is harmless iff the owner was written as a bare pointer, is the root, or lies out of pointer range |
| `AnswerRun.WrittenKnown` | library/orbotservice/src/main/jniLibs/pdnsd/src/dns.c:248-300 | a name that was placed once is emitted as a bare pointer from then on, unless the message has outgrown pointers |
| `AnswerRun.ServerKnown` | library/orbotservice/src/main/jniLibs/pdnsd/src/dns_answer.c:534-589 | the server named by an NS, MD, MF, MB, MX or SRV record is known once the record is written |
| `AnswerRun.StepConsistent` | library/orbotservice/src/main/jniLibs/pdnsd/src/dns_answer.c:213-415 | whatever is added, kept or taken back, the compression list agrees with the message |
| `AnswerRun.AnswerReads` | library/orbotservice/src/main/jniLibs/pdnsd/src/dns_answer.c:752-990 | answer round trip: reading the finished message finds exactly the records that were kept, in order, and the OPT record, if and only if the data of each of them has at most 65535 bytes |
| `AnswerRun.KeptFits` | library/orbotservice/src/main/jniLibs/pdnsd/src/dns_answer.c:396-398 | what is kept is among what was added, so short data stays short data |
| `AnswerPlan.NewOnesNew` | library/orbotservice/src/main/jniLibs/pdnsd/src/dns_answer.c:662-684 | no record is added to the authority or additional section that is on the list of those marked as added (name servers and addresses of the answer section, and what was added since) |
| `AnswerPlan.NewOnesComplete` | library/orbotservice/src/main/jniLibs/pdnsd/src/dns_answer.c:662-684 | every record meant for a section is on that list afterwards, up to the case of its name |
| `AnswerPlan.PlanSections` | library/orbotservice/src/main/jniLibs/pdnsd/src/dns_answer.c:826-972 | section by section: the answer section has what was found, in order; the authority section its records without repeats, or the SOA records of a name error; the additional section the addresses of the servers without repeats, if an OPT record would fit; OPT is there iff it was asked for and would fit, or there was a name error |
| `AnswerPlan.PlanFits` | library/orbotservice/src/main/jniLibs/pdnsd/src/dns_answer.c:826-972 | if the data of every record found has at most 65535 bytes, so has that of every record added |
| `AnswerOnce.MessageRepeats` | library/orbotservice/src/main/jniLibs/pdnsd/src/dns_answer.c:554-684 | when all names were found: a record is in the message twice iff it is in the answer section twice or is an SOA record wanted in both the answer and the authority section |
| `AnswerOnce.MessageMissing` | library/orbotservice/src/main/jniLibs/pdnsd/src/dns_answer.c:662-684 | nothing wanted in the answer and authority sections is missing; a wanted address is missing iff it was taken back, or iff it is not in the answer section when there is no additional section |
| `AnswerExamples.SoaIsRepeated` | library/orbotservice/src/main/jniLibs/pdnsd/src/dns_answer.c:570-576 | a question for the SOA record of a zone and one for a type it lacks: the SOA record is in the message twice |
| `AnswerExamples.AddressIsTakenBack` | library/orbotservice/src/main/jniLibs/pdnsd/src/dns_answer.c:662-684 | an OPT record would fit, the address of a server does not: it is marked as added and missing |
| `AnswerMessage.Answer.Reserve` | library/orbotservice/src/main/jniLibs/pdnsd/src/dns_answer.c:231-243 | the buffer stays as it is if there is room; otherwise it becomes the least multiple of the chunk size that holds the new bytes, or memory has run out |
| `AnswerMessage.Answer.AppendData` | library/orbotservice/src/main/jniLibs/pdnsd/src/dns_answer.c:252-394 | the switch of add_rr: data and list as specified, every write inside the allocated buffer, rdlen equal to the bytes written |
| `AnswerMessage.Answer.AddRr` | library/orbotservice/src/main/jniLibs/pdnsd/src/dns_answer.c:213-418 | appends the record or, for an additional record beyond the limit, nothing; header counter of the section goes up iff the record was kept; buffer and list stay valid; it fails only if memory runs out |
| `AnswerMessage.Answer.AddOpt` | library/orbotservice/src/main/jniLibs/pdnsd/src/dns_answer.c:423-455 | appends the eleven bytes of an OPT record and counts it, or changes nothing because memory runs out |
| `AnswerMessage.Answer.RemoveOpt` | library/orbotservice/src/main/jniLibs/pdnsd/src/dns_answer.c:462-480 | removes the last eleven bytes iff the counter is positive and they look like an OPT record |
| `AnswerMessage.OptComesOff` | library/orbotservice/src/main/jniLibs/pdnsd/src/dns_answer.c:423-480 | removing undoes adding |
| `AnswerMessage.Answer.AddQuestion` | library/orbotservice/src/main/jniLibs/pdnsd/src/dns_answer.c:784-812 | the question section, with the names entered into the compression list and the questions counted |
| `AnswerMessage.Answer.AddOnce` | library/orbotservice/src/main/jniLibs/pdnsd/src/dns_answer.c:662-684 | a record that is on the list of those added is not added again; any other is added and put on the list; its server is known either way |
| `AnswerMessage.Answer.AddAnswer` | library/orbotservice/src/main/jniLibs/pdnsd/src/dns_answer.c:554-597 | the record goes into the answer section; it is marked as added iff it is a name server or an address; its server is noted iff its type names one |
| `AnswerMessage.Answer.AddAuthority` | library/orbotservice/src/main/jniLibs/pdnsd/src/dns_answer.c:940-951 | adds the records on the list that are meant for the authority section and are not in the message yet, in order |
| `AnswerMessage.Answer.AddAddresses` | library/orbotservice/src/main/jniLibs/pdnsd/src/dns_answer.c:715-745 | adds the cached addresses of a server that are not in the message yet |
| `AnswerMessage.Answer.AddAdditional` | library/orbotservice/src/main/jniLibs/pdnsd/src/dns_answer.c:953-972 | nothing if an OPT record would not fit; otherwise OPT, if asked for, then the addresses of all servers on the list without repeats; a response within the UDP limit before is within it afterwards |
| `AnswerMessage.Answer.Compose` | library/orbotservice/src/main/jniLibs/pdnsd/src/dns_answer.c:826-972 | exactly the records of the plan are added, section by section, whether all names were found, one does not exist, or a look-up failed; the header counts those that were kept; a reader finds exactly those, whatever the header holds, iff the data of each of them has at most 65535 bytes; the message is within the UDP limit iff its first two sections are and OPT after a name error does not exceed it |
| `AnswerMessage.Answer.AddSoa` | library/orbotservice/src/main/jniLibs/pdnsd/src/dns_answer.c:841-858 | the cached SOA records of an enclosing domain go into the authority section unmarked |
| `AnswerExamples.NameErrorTooLong` | library/orbotservice/src/main/jniLibs/pdnsd/src/dns_answer.c:838-866 | a name error with 506 bytes and EDNS, limit 512: the message is too long |
| `CacheLock.StepKeepsInv` | library/orbotservice/src/main/jniLibs/pdnsd/src/cache.c:235-345 | every critical section keeps the counters, the exclusion and the wake-up invariant |
| `CacheLock.WriterExcludesAll` | library/orbotservice/src/main/jniLibs/pdnsd/src/cache.c:235-335 | in every interleaving, a writer excludes readers and other writers |
| `CacheLock.SomebodyCanProceed` | library/orbotservice/src/main/jniLibs/pdnsd/src/cache.c:235-345 | no lost wake-up: if nobody holds the lock while a thread sleeps, an awakened thread exists whose next step acquires it |
| `CacheLock.SuspensionHasWriter` | library/orbotservice/src/main/jniLibs/pdnsd/src/cache.c:235-335 | readers are suspended only while a writer is pending or active |
| `CacheLock.DrainsCompletely` | library/orbotservice/src/main/jniLibs/pdnsd/src/cache.c:235-345 | without new requests every run ends after a number of steps bounded by the state at its start and the number of spurious wake-ups, and where it ends every thread has been served |
| `AgeList.RRList.InsertRrl` | library/orbotservice/src/main/jniLibs/pdnsd/src/cache.c:889-950 | insertion from the tail links the node in behind the last one that is not younger, or at the end while insertion sort is off; prev, next, head and tail are right |
| `AgeList.RRList.RemoveRrl` | library/orbotservice/src/main/jniLibs/pdnsd/src/cache.c:953-965 | exactly that node leaves the list, and all four pointers around it are right |
| `AgeList.ListMerge` | library/orbotservice/src/main/jniLibs/pdnsd/src/cache.c:972-1005 | the loop relinks the nodes of two lists in place into the stable merge |
| `AgeList.AddRun` | library/orbotservice/src/main/jniLibs/pdnsd/src/cache.c:1024-1038 | one node is carried through the slots; slot i holds nothing or a sorted run of length 2^i; it fails only when 2^32 nodes are there |
| `AgeList.MergeSlots` | library/orbotservice/src/main/jniLibs/pdnsd/src/cache.c:1040-1045 | the runs that are left are merged into one stable sort of the whole list |
| `AgeList.RRList.RestoreBackLinks` | library/orbotservice/src/main/jniLibs/pdnsd/src/cache.c:1047-1053 | after the pass every prev pointer mirrors a next pointer, and tail is the last node |
| `AgeList.RRList.SortRrl` | library/orbotservice/src/main/jniLibs/pdnsd/src/cache.c:1012-1055 | a stable, sorted permutation, equal to inserting the nodes one by one, with back links and tail restored; it succeeds iff there are fewer than 2^32 nodes (the assertion in the code) |
| `AgeSort.StableSortUnique` | library/orbotservice/src/main/jniLibs/pdnsd/src/cache.c:972-1055 | a stable sort has only one result |
| `RRTypes.SlotOfType` | library/orbotservice/src/main/jniLibs/pdnsd/src/rr_types.h:111-232 | every slot has a type that rrlkuptab maps to it |
| `RRTypes.TypeOfSlot` | library/orbotservice/src/main/jniLibs/pdnsd/src/rr_types.h:111-232 | different cached types have different slots |
| `RRTypes.IterListTypes` | library/orbotservice/src/main/jniLibs/pdnsd/src/rr_types.h:184-232 | rrcachiterlist holds exactly the cached types, ascending |
| `RRTypes.MuIterList` | library/orbotservice/src/main/jniLibs/pdnsd/src/rr_types.h:169-178 | rrmuiterlist holds exactly the types of the first slots, ascending |
| `RRTypes.ConflictSymmetric` | library/orbotservice/src/main/jniLibs/pdnsd/src/rr_types.h:464-530 | exclusion is symmetric, and no type excludes itself |
| `CacheEntry.InitCent` | library/orbotservice/src/main/jniLibs/pdnsd/src/cache.c:558-585 | a new entry has its true size and no sets |
| `CacheEntry.AddSetAccounted` | library/orbotservice/src/main/jniLibs/pdnsd/src/cache.c:605-652 | adding a set, and the extension array if it is needed, keeps cs and num_rrs right |
| `CacheEntry.AddCentRRAccounted` | library/orbotservice/src/main/jniLibs/pdnsd/src/cache.c:718-752 | adding a record (duplicates and local precedence included) keeps them right |
| `CacheEntry.DropSetAccounted` | library/orbotservice/src/main/jniLibs/pdnsd/src/cache.c:755-792 | deleting a set keeps them right |
| `CacheSteps.DelSetWorking` | library/orbotservice/src/main/jniLibs/pdnsd/src/cache.c:776-792 | deleting a set inside an operation: counters, links and age order |
| `CacheSteps.InsertRrlWorking` | library/orbotservice/src/main/jniLibs/pdnsd/src/cache.c:889-950 | listing a set inside an operation: mutual back pointers, distinct nodes, age order |
| `CacheSteps.DelEntValid` | library/orbotservice/src/main/jniLibs/pdnsd/src/cache.c:2061-2091 | deleting an entry keeps all structures in agreement |
| `CacheMerge.PurgedSets` | library/orbotservice/src/main/jniLibs/pdnsd/src/cache.c:1188-1250 | purging removes exactly the timed-out sets that are neither local nor marked |
| `CacheMerge.MergeSlotSets` | library/orbotservice/src/main/jniLibs/pdnsd/src/cache.c:1933-1973 | one round of the merge: which sets are there afterwards, case by case |
| `CacheMerge.MergeKeepsLocal` | library/orbotservice/src/main/jniLibs/pdnsd/src/cache.c:1932-1976 | merging sets that are not local never removes or changes a local set |
| `CacheMerge.MergeConflictFree` | library/orbotservice/src/main/jniLibs/pdnsd/src/cache.c:1759-1814 | merging anything into a conflict-free entry leaves no two positive sets that exclude each other |
| `CacheMerge.MergeOrigin` | library/orbotservice/src/main/jniLibs/pdnsd/src/cache.c:1932-1976 | every set afterwards is an old one or the new one of its slot |
| `CacheMerge.MergeIdem` | library/orbotservice/src/main/jniLibs/pdnsd/src/cache.c:1932-1976 | for types without conflicts: the new set wins iff the old one has no precedence |
| `CacheErase.EraseMergeSlot` | library/orbotservice/src/main/jniLibs/pdnsd/src/cache.c:1933-1973 | merging does not depend on the age-list pointers |
| `CachePurge.StaleAfterPurge` | library/orbotservice/src/main/jniLibs/pdnsd/src/cache.c:1272-1305 | a reference is stale before the purge iff it is stale after it |
| `CachePurge.SecondPurgeFindsNothing` | library/orbotservice/src/main/jniLibs/pdnsd/src/cache.c:1257-1307 | after a real run that keeps the entry, a second run at the same time returns 0 |
| `CacheLookup.NothingToPurge` | library/orbotservice/src/main/jniLibs/pdnsd/src/cache.c:1257-1307 | a test run that returns 0 means that a real run changes nothing |
| `CacheLookup.FoundOnce` | library/orbotservice/src/main/jniLibs/pdnsd/src/cache.c:2184-2222 | the wildcard search has one outcome, so the repeated search finds the same entry |
| `CacheLookup.WildcardFits` | library/orbotservice/src/main/jniLibs/pdnsd/src/cache.c:2205-2211 | the wildcard name fits the buffer whenever the name does |
| `CacheLookup.InvalidatedOrder` | library/orbotservice/src/main/jniLibs/pdnsd/src/cache.c:2108-2133 | for a cache in age order: invalidating a record keeps the order iff only nodes that were invalidated before are older than its own |
| `CacheEvict.DropNodeKeeps` | library/orbotservice/src/main/jniLibs/pdnsd/src/cache.c:1343-1365 | deleting the set or entry of one node removes exactly this node, and all structures still agree |
| `CacheEvict.DroppedMeaning` | library/orbotservice/src/main/jniLibs/pdnsd/src/cache.c:1322-1365 | deleting the nodes of a list removes exactly these nodes and the sets they stand for; an entry goes exactly when nothing is left of it |
| `CacheEvict.FirstWalkMeaning` | library/orbotservice/src/main/jniLibs/pdnsd/src/cache.c:1322-1341 | what the first walk deletes is exactly what has timed out among the nodes it visits |
| `CacheEvict.SecondWalkMeaning` | library/orbotservice/src/main/jniLibs/pdnsd/src/cache.c:1351-1365 | nothing that the second walk deletes is younger than anything that stays |
| `CacheExamples.OrderLost` | library/orbotservice/src/main/jniLibs/pdnsd/src/cache.c:2108-2133 | two negative entries; invalidating the younger one breaks the age order |
| `CacheAdd.AddKeepsLocal` | library/orbotservice/src/main/jniLibs/pdnsd/src/cache.c:1874-2000 | adding an entry without local sets keeps every local set, on every outcome, out of memory included |
| `CacheAdd.AddConflictFree` | library/orbotservice/src/main/jniLibs/pdnsd/src/cache.c:1874-2000 | a conflict-free table stays so iff the entry was merged or has no conflicts itself |
| `CacheExamples.ConflictStays` | library/orbotservice/src/main/jniLibs/pdnsd/src/cache.c:1874-1913 | an empty cache and a new entry with CNAME and A sets: the conflict stays |
| `CacheAdd.LocalEntryReplaced` | library/orbotservice/src/main/jniLibs/pdnsd/src/cache.c:1914-1927 | a DF_LOCAL entry without local sets loses its flag iff the new entry is negative |
| `CacheExamples.LocalEntryLost` | library/orbotservice/src/main/jniLibs/pdnsd/src/cache.c:1914-1927 | a DF_LOCAL entry without sets and a negative one: the flag is lost |
| `CacheAdd.LocalNegativeOverridden` | library/orbotservice/src/main/jniLibs/pdnsd/src/cache.c:1932-1976 | a local negative entry stays negative iff the new entry has no local and no negatively cached sets |
| `CacheExamples.LocalNegativeLost` | library/orbotservice/src/main/jniLibs/pdnsd/src/cache.c:1932-1976 | a local negative entry and an entry with a negatively cached set: it is positive afterwards |
| `CacheWork.CountRivals` | library/orbotservice/src/main/jniLibs/pdnsd/src/cache.c:1770-1795 | the number of conflicting sets, their summed lifetimes, and whether one of them is local |
| `RRCache.Cache.constructor` | library/orbotservice/src/main/jniLibs/pdnsd/src/cache.c:468-476 | an empty cache is valid |
| `RRCache.Cache.SizeOfSet` | library/orbotservice/src/main/jniLibs/pdnsd/src/cache.c:755-771 | del_rrset returns the size of the set and its records |
| `RRCache.Cache.FreeCent` | library/orbotservice/src/main/jniLibs/pdnsd/src/cache.c:813-837 | all nodes of the entry leave the age list, and no others |
| `RRCache.Cache.DelCacheEnt` | library/orbotservice/src/main/jniLibs/pdnsd/src/cache.c:2061-2091 | entry, nodes, size and number change together |
| `RRCache.Cache.PurgeAllRRSets` | library/orbotservice/src/main/jniLibs/pdnsd/src/cache.c:1207-1250 | counts are the same in test mode, which changes nothing; a real run removes exactly the expired sets |
| `RRCache.Cache.PurgeCent` | library/orbotservice/src/main/jniLibs/pdnsd/src/cache.c:1257-1307 | test mode changes nothing and returns exactly what the real run returns; the real run keeps all structures in agreement |
| `RRCache.Cache.DeleteNode` | library/orbotservice/src/main/jniLibs/pdnsd/src/cache.c:1351-1365 | deleting the set of a node removes exactly that node, so a saved next pointer stays valid |
| `RRCache.Cache.PurgeTimedOut` | library/orbotservice/src/main/jniLibs/pdnsd/src/cache.c:1322-1341 | the first walk visits the nodes in order and deletes exactly those that have timed out; it visits all of them, or, if it is lazy, no more than it takes to reach the size |
| `RRCache.Cache.EvictOldest` | library/orbotservice/src/main/jniLibs/pdnsd/src/cache.c:1351-1365 | the second walk deletes the shortest prefix of the age list that brings the size to sz, or all of it |
| `RRCache.Cache.PurgeCache` | library/orbotservice/src/main/jniLibs/pdnsd/src/cache.c:1314-1366 | the first walk, and, if the size is not reached, sorting and the second walk, as specified; ends with cache_size at most sz or an empty age list; never deletes a local set; fails only if a list too long to sort has to be sorted |
| `RRCache.Cache.CrCheckAdd` | library/orbotservice/src/main/jniLibs/pdnsd/src/cache.c:1759-1814 | accepts as specified, and then removes exactly the conflicting sets |
| `RRCache.Cache.InsertRrl` | library/orbotservice/src/main/jniLibs/pdnsd/src/cache.c:889-950 | a node for a set or entry that is not local, in order or at the end |
| `RRCache.Cache.MergeSet` | library/orbotservice/src/main/jniLibs/pdnsd/src/cache.c:1933-1973 | one round of the merge, with cleanup when memory runs out |
| `RRCache.Cache.MergeEntry` | library/orbotservice/src/main/jniLibs/pdnsd/src/cache.c:1928-1993 | the whole merge: sets, flags, references; sizes add up on the out-of-memory paths too |
| `RRCache.Cache.FileNew` | library/orbotservice/src/main/jniLibs/pdnsd/src/cache.c:1882-1913 | a new entry is filed completely or not at all |
| `RRCache.Cache.AddCache` | library/orbotservice/src/main/jniLibs/pdnsd/src/cache.c:1874-2000 | outcome and table as specified; then a lazy purge as specified; all structures agree; size limit, local sets and conflicts as promised |
| `RRCache.Cache.DelCache` | library/orbotservice/src/main/jniLibs/pdnsd/src/cache.c:2094-2103 | the entry is gone, everything else is unchanged |
| `RRCache.Cache.FindEntry` | library/orbotservice/src/main/jniLibs/pdnsd/src/cache.c:2191-2222 | the entry itself, or what the closest cached enclosing domain says |
| `RRCache.Cache.LookupCache` | library/orbotservice/src/main/jniLibs/pdnsd/src/cache.c:2184-2273 | returns the entry as a purge leaves it, and deletes a timed-out one; it acts on the table of the last lock, which differs from the first only if there is something to purge and other threads act in between |
| `RRCache.Cache.InvalidateRecord` | library/orbotservice/src/main/jniLibs/pdnsd/src/cache.c:2108-2133 | time stamps are zero, counters and links still agree |
| `RRCache.Cache.LoadEntries` | library/orbotservice/src/main/jniLibs/pdnsd/src/cache.c:1398-1530 | entries from disk are added unsorted and sorted once; the age list is in order afterwards; it fails only on a list too long to sort |
| `RRCache.Cache.Run` | library/orbotservice/src/main/jniLibs/pdnsd/src/cache.c:1874-2273 | every run of operations of any length: agreement in every state, age order unless invalidated, local sets and freedom from conflicts preserved |
| `DnsHash.RhnIcmp` | library/orbotservice/src/main/jniLibs/pdnsd/src/helpers.h:206-221 | true iff the names are equal up to ASCII case |
| `DnsHash.Hash` | library/orbotservice/src/main/jniLibs/pdnsd/src/hash.c:57-85 | bucket and long hash of a name, with the wrap-around of the unsigned types |
| `DnsHash.SameNameSameHash` | library/orbotservice/src/main/jniLibs/pdnsd/src/hash.c:57-85 | names equal under rhnicmp have the same bucket and the same long hash |
| `DnsHash.Scan` | library/orbotservice/src/main/jniLibs/pdnsd/src/hash.c:106-128 | the search through a chain finds the name iff it is there, and else the place to insert it |
| `DnsHash.HashTable.Lookup` | library/orbotservice/src/main/jniLibs/pdnsd/src/hash.c:106-128 | lookup as in a map keyed by case-folded names |
| `DnsHash.HashTable.Add` | library/orbotservice/src/main/jniLibs/pdnsd/src/hash.c:137-150 | insertion at the returned place keeps the chain ordered and adds the key to the map |
| `DnsHash.HashTable.DelAt` | library/orbotservice/src/main/jniLibs/pdnsd/src/hash.c:155-164 | deletion removes that key and no other |
| `DnsHash.HashTable.Del` | library/orbotservice/src/main/jniLibs/pdnsd/src/hash.c:170-189 | deletion by name, absent names included |
| `DnsHash.HashTable.FetchFirst` | library/orbotservice/src/main/jniLibs/pdnsd/src/hash.c:275-287 | the first entry in bucket order |
| `DnsHash.HashTable.FetchNext` | library/orbotservice/src/main/jniLibs/pdnsd/src/hash.c:289-307 | the next one of those that remain |
| `DnsHash.HashTable.Walk` | library/orbotservice/src/main/jniLibs/pdnsd/src/hash.c:275-307 | a walk meets every entry of the map exactly once |
| `DnsHash.DeleteFetched` | library/orbotservice/src/main/jniLibs/pdnsd/src/hash.c:265-307 | deleting entries that were fetched does not change what is still to be fetched |
| `QueryMachine.QueryStat.TcpWrite` | library/orbotservice/src/main/jniLibs/pdnsd/src/dns_query.c:923-951 | partial writes, errors and the step to reading, with the socket open iff the state waits for it |
| `QueryMachine.QueryStat.TcpRead` | library/orbotservice/src/main/jniLibs/pdnsd/src/dns_query.c:953-993 | length prefix, partial reads, errors; the socket is closed exactly once; a buffer is freed twice exactly when an empty message is announced while the buffer of an earlier answer is held |
| `QueryMachine.QueryStat.ReallocRecvbuf` | library/orbotservice/src/main/jniLibs/pdnsd/src/dns_query.c:785-791 | the buffer is owned afterwards or null; an owned buffer is freed twice exactly when the new size is zero |
| `QueryMachine.QueryStat.QuerySm` | library/orbotservice/src/main/jniLibs/pdnsd/src/dns_query.c:848-1093 | waits with an open socket or ends with none; falls back from TCP to UDP at most once; every step leaves less to do, or uses up an event without effect; a buffer is freed twice only if the message was sent again in another form over TCP |
| `QueryMachine.QueryStat.Judge` | library/orbotservice/src/main/jniLibs/pdnsd/src/dns_query.c:1229-1331 | every retry uses up one of: recursion desired, EDNS |
| `QueryMachine.QueryStat.Exec` | library/orbotservice/src/main/jniLibs/pdnsd/src/dns_query.c:1138-1352 | after every call a socket is open iff the state is TCPWRITE, TCPREAD or UDPRECEIVE, buffers are owned iff the query is under way, and transmissions stay within the bound; every call brings the query closer to its end, or uses up an event without effect; a buffer is freed twice only for a query with a name, allowed to use TCP, and with recursion desired or EDNS configured |
| `QueryMachine.QueryStat.Cancel` | library/orbotservice/src/main/jniLibs/pdnsd/src/dns_query.c:1928-1942 | in any state everything is released, once |
| `QueryMachine.QueryStat.SwitchToTcp` | library/orbotservice/src/main/jniLibs/pdnsd/src/dns_query.c:815-822 | starting over with TCP, recursion desired again, stays within the bound of transmissions |
| `QueryMachine.QueryStat.FallBack` | library/orbotservice/src/main/jniLibs/pdnsd/src/dns_query.c:2314-2325 | a tentative TCP query continues over UDP with its buffers |
| `QueryMachine.FreesTwice` | library/orbotservice/src/main/jniLibs/pdnsd/src/dns_query.c:953-970 | every such query does free a buffer twice, against a server that first asks for another try and then announces no bytes |
| `ParallelQuery.Ask` | library/orbotservice/src/main/jniLibs/pdnsd/src/dns_query.c:2150-2191 | one server is asked, with the retry over TCP; the best answer is kept; each answer uses up one of those the protocol allows; less is left to do afterwards, or an event without effect is used up |
| `ParallelQuery.PollRound` | library/orbotservice/src/main/jniLibs/pdnsd/src/dns_query.c:2211-2445 | one round of polling; a round that is not the last leaves less to do or uses up an event without effect; "call again" can remain only if a server of this batch is asked over TCP first, and does in a silent network without a global timeout |
| `ParallelQuery.PollBatch` | library/orbotservice/src/main/jniLibs/pdnsd/src/dns_query.c:2199-2445 | the number of rounds is at most one more than the work done in them and the events without effect; a silent network uses all of these up |
| `ParallelQuery.RecursiveQuery` | library/orbotservice/src/main/jniLibs/pdnsd/src/dns_query.c:2133-2530 | on return every query is unstarted, or done or canceled with nothing held; transmissions are bounded; no server gives more than two answers, or one without UDP_TCP; a saved answer that is used is the best of those judged; poll rounds are bounded by the work at first, the number of batches and the number of events without effect; a buffer is freed twice only for queries that may do so; the result is -1 only if a server of the last batch is asked over TCP first, and in a silent network without a global timeout exactly then |
| `ParallelQuery.CallAgainReturned` | library/orbotservice/src/main/jniLibs/pdnsd/src/dns_query.c:2305-2356 | one server that is asked over TCP first, and a silent network: -1 is returned |
| `ParallelQuery.PollsOnAndOn` | library/orbotservice/src/main/jniLibs/pdnsd/src/dns_query.c:2211-2443 | one UDP server and n datagrams that do not belong to the query: more than n rounds, for every n |
| `ParallelQuery.LastBatchBegins` | library/orbotservice/src/main/jniLibs/pdnsd/src/dns_query.c:2137-2139 | the last batch starts where the loop over the servers says |
| `Resolver.CheckAa` | library/orbotservice/src/main/jniLibs/pdnsd/src/dns_query.c:2627-2671 | the aa flag is disbelieved iff every referral is a better match for the name |
| `Resolver.AddAddresses` | library/orbotservice/src/main/jniLibs/pdnsd/src/dns_query.c:2819-2865 | addresses join the list unless local, listed or queried before; no twins if the reply has none |
| `Resolver.AlreadyWanted` | library/orbotservice/src/main/jniLibs/pdnsd/src/dns_query.c:2748-2762 | true iff the address of this name is being resolved further up |
| `Resolver.AuthOk` | library/orbotservice/src/main/jniLibs/pdnsd/src/dns_query.c:2598-2879 | servers are found only while hops are left, and none of them was asked before; every name server of every referral that is consulted is looked up, unless its address is being resolved already |
| `Resolver.Arrive` | library/orbotservice/src/main/jniLibs/pdnsd/src/dns_query.c:2150-2191 | what one result does: RC_NAMEERR and RC_FATALERR drop what was saved, other failures change nothing, an answer is judged and used, kept or dropped |
| `Resolver.PRecursiveQuery` | library/orbotservice/src/main/jniLibs/pdnsd/src/dns_query.c:2533-2574 | what is returned is an answer that came or the result of the further resolution, and an error or a cached result of the latter is passed on; the nested resolution has fewer hops, never below zero, and every lookup on the way is within the bounds |
| `Resolver.Resolve` | library/orbotservice/src/main/jniLibs/pdnsd/src/dns_query.c:3472-3579 | the recursion ends for any server behaviour; the resolution and every nested lookup has hops left; no chain is longer than the hop count or looks up the same address twice |
| `DiskFormat.CFlagsBits` | library/orbotservice/src/main/jniLibs/pdnsd/src/cache.h:86-93 | the flags of a set survive their two bytes |
| `DiskRoundTrip.IterListComplete` | library/orbotservice/src/main/jniLibs/pdnsd/src/cache.h:283-285 | the iteration lists visit every used slot, in ascending order of types |
| `DiskRoundTrip.SetCount` | library/orbotservice/src/main/jniLibs/pdnsd/src/cache.c:1675-1692 | the number of sets counted by slot is the number of sets written by type |
| `DiskRoundTrip.EntryBack` | library/orbotservice/src/main/jniLibs/pdnsd/src/cache.c:1675-1725 | an entry comes back with its name, flags, references and non-local sets in order |
| `DiskRoundTrip.RereadIntact` | library/orbotservice/src/main/jniLibs/pdnsd/src/cache.c:1554-1586 | of a set come back the first 255 records, their data cut to the length modulo 65536, none twice; this is all of it iff there are at most 255 records of at most 65535 bytes, no two of them equal |
| `DiskRoundTrip.LongDataOnDisk` | library/orbotservice/src/main/jniLibs/pdnsd/src/cache.c:1577-1578 | 65536 bytes of data come back as none |
| `DiskCache.FileBack` | library/orbotservice/src/main/jniLibs/pdnsd/src/cache.c:1597-1736 | disk round trip for every list of entries whose times and reference counts fit their fields: names, flags, references and sets that are not local, in order, with the records as RereadIntact describes them |
| `DiskTruncation.EntryTruncated` | library/orbotservice/src/main/jniLibs/pdnsd/src/cache.c:1428-1512 | a beginning of an entry is never taken for an entry |
| `DiskTruncation.FileTruncated` | library/orbotservice/src/main/jniLibs/pdnsd/src/cache.c:1375-1736 | wherever writing the file has stopped: reading it rebuilds the first entries that were saved, in order; all of them, and without complaint, if the file is complete, and the end of the file is noticed otherwise |
| `DiskCache.RecordsBack` | library/orbotservice/src/main/jniLibs/pdnsd/src/cache.c:718-727 | the sets come back with all their records iff the entry is not DF_LOCAL or has none, and each set has at most 255 records of at most 65535 bytes, no two of them equal |
| `CacheExamples.RecordLostOnDisk` | library/orbotservice/src/main/jniLibs/pdnsd/src/cache.c:718-727 | a DF_LOCAL entry with an address set that is not local: the address is gone after saving and loading |
| `DiskCache.ReadFileAccounted` | library/orbotservice/src/main/jniLibs/pdnsd/src/cache.c:1428-1512 | whatever the file contains, every entry read from it is well accounted |
| `DiskCache.WriteRRSet` | library/orbotservice/src/main/jniLibs/pdnsd/src/cache.c:1554-1586 | writes the header and at most 255 records; if writing fails, a beginning of them |
| `DiskCache.WriteDiskCache` | library/orbotservice/src/main/jniLibs/pdnsd/src/cache.c:1597-1736 | the two walks write exactly the file format; if writing fails, the file is a beginning of it; it fails only if a write does |
| `DiskCache.ReadDiskCache` | library/orbotservice/src/main/jniLibs/pdnsd/src/cache.c:1375-1512 | the loops read exactly the entries of the format, up to the first error |

## Left out

- timedlock_cache_rw, the softlock functions and signal handling around the lock.
- add_reverse_cache: it lends NS and SOA sets to an entry without counting them, so it does not
  meet the precondition of add_cache.
- set_cent_flags, negate_cent, add_cache_rr_add, empty_cache, report and dump functions of the
  cache: each would add easy members.
- Pointers of the hash chains: the chains are sequences. `RRCache.Cache` keeps the age list as a
  sequence of nodes with ids; `AgeList.RRList` shows that the linked list computes the same
  sequences.
- Memory layout: structure sizes are those of a 64-bit build; time_t has eight bytes.
- RRCache.Cache.AddCache: the entry that is added has the right counters, as every entry built
  with init_cent and add_cent_rr has.
- AnswerMessage.Answer.Compose: which records are looked up for a question (CNAME chains, random
  order, SOA for negative answers) is a parameter.
- DiskCache.FileBack: non-negative times.
- DiskTruncation.FileTruncated: entries that fit the format, as for DiskCache.FileBack.
- DiskCache.WriteDiskCache: the file is open; the purge that comes first is
  `RRCache.Cache.PurgeCache`.
- QueryMachine.QueryStat.Exec: the analysis of an accepted reply (reject lists, delegation-only
  zones, negative caching) is an arbitrary result.
- ParallelQuery.RecursiveQuery: the number of events without effect in a run is given, and
  finite; the clock does not go back; the memory of the answers that are kept or dropped is not
  tracked.
- Resolver.PRecursiveQuery: which results arrive, in which order and of which quality, is
  arbitrary, within two for each server, the number that ParallelQuery.RecursiveQuery proves.
- The choice of configured servers, root server discovery, lookup_cache_status, up-tests.
- Parsing of configuration and hosts files, text forms of names, diagnostic output.
- The IPv6 branches, which the shipped configuration disables.
- libancillary, the Java and Kotlin code of the app, and process setup.
