# Models of the systems labs

The repository is a collection of systems-programming labs in C. This project models the algorithms in them that are more than
plumbing and proves what they promise, or exactly when they do not keep it. `dafny verify dfyconfig.toml` checks all of it.

- **Bounded buffer and prethreaded server** (`Sbuf`, `PrethreadedServer`, `PrethreadedProperties`, `PrethreadedRuns`,
  `PrethreadedService`). Every access to shared memory is a step of its own: `++rear` is a load and a store, and so is
  `byte_cnt += n`. `Step` runs one step of one thread, `Exec` any schedule of any number of accepting and working threads. The
  invariant ties the semaphores, the threads in flight,
  `front`, `rear`, the cells, the ownership of connections and the counter together. `Sbuf.SharedBuffer` is the struct itself,
  with uninterrupted calls; `RunsAlone` says that a thread left alone in the step system has that very effect.
- **Threaded web server queue** (`ThreadedWebQueue`, `ThreadedWebRuns`, `ThreadedWebClients`). The same for the shifting array
  with a mutex and two semaphores. What accept gives, what is popped and what is handled is read off the schedule. Both queues
  refine `BoundedFifo.FifoStep`.
- **DNS codec and alias-chasing responder** (`DnsName`, `DnsRecord`, `DnsServer`, their `Properties`, `DnsRoundTrips`,
  `DnsUncompressed`, `DnsReply`, `DnsStandard`, `DnsExamples`, `DnsWholeReply`). The decoder's and the
  responder's loops are walks of a partial function; `Orbits` says when such a walk ends (exactly when it repeats no place) and
  when two of them agree. RFC 1035 and RFC 1034 appear as independent definitions: what
  section 4.1.4 of the one says a name stands for, and what section 4.3.2 of the other answers, with the class, letter case, all
  records of the type and all types of an ANY question.
- **Integer-to-float rounding** (`FloatRounding`), for every word and fraction width at once. `Rounds` says "nearest finite
  pattern, ties to the even one" over all patterns, without reference to the algorithm.
- **Robust I/O** (`Rio`, `RioClients`) over a descriptor that reads and writes short, is interrupted and may fail.
- **Blocked transpose** (`Transpose`), **cache simulator** (`CacheSim`, `CacheShifts`, `CacheProperties`, `CacheLru`, `CacheTotals`),
  **epoll echo** (`EpollModel`, `EpollEcho`) and **select pool** (`SelectPool`). An epoll event is a function of the answers that
  the calls of `recv` and `send` give; the class with its buffers computes that function.

## Where the code differs from what it promises

Each has a lemma that names the failing case, and where a condition decides, an if-and-only-if.

- `byte_cnt` with its mutex free may lag behind the bytes read; it is exact iff no worker is between reading a line and storing
  the sum (`CounterExactIff`, `LockFreeIsNotEnough`). The program comes to such a state with its first line (`CounterIsBehind`).
- A failed `accept` in the threaded web server keeps the slot it had waited for. The server is stuck iff all slots are lost that
  way and all threads are back at their semaphores (`StuckIffAllSlotsLost`, `FailedAcceptsStopTheServer`); once the slots are lost
  every schedule gets there (`EveryRunStops`).
- `get_response` answers as section 4.3.2 of RFC 1034 iff it finds the name asked for and every target on the way where the
  standard does and there is a single record to copy in the end (`AnswersAsStandardIff`). In a cache of one class with plain names,
  where no alias has other data beside it, that is: no alias on the way is answered by entry 0, because the scan restarts at
  entry 1, and the last name has one record of the type (`OrderlyAnswersIff`). Small caches show each departure
  (`AddressInFrontIsMissed`, `SecondAddressIsMissed`, `ClassIsIgnored`, `CapitalsAreMissed`), and a name without data of the type
  is reported as not existing (`NoDataIsNameError`, `NameErrorCases`). Asked for ANY, it leaves out all records but
  aliases (`AnyTypeIsIncomplete`) and is right iff there is no record, or a single alias that leads nowhere (`AnyTypeIff`).
- `get_response` does not come to an end iff it uses an alias twice, or one whose data the decoder does not bring to an end inside
  its buffer (`LookupEndsIff`, `AllLookupsEndIff`). The cache file can hold either (`MutualAliasesNeverEnd`, `LongTargetNeverEnds`).
- `name_ascii_from_wire` does not come to an end iff its walk repeats a place; pointers below the start of the segment being read
  exclude that, pointers merely below themselves do not. It takes one octet of offset and puts a dot in front of a pointer to the
  root (`WalkHaltsIff`, `BackwardPointerCanCycle`, `SameWalkAsStandardIff`, `DottedIffNoRootPointer`).
- A name without zero octets survives encoding and decoding iff it has no dots that separate nothing and all its labels are shorter
  than 192 octets (`DecodesToIff`, `RoundTripIff`).
- `rr_from_wire` skips 11 octets of an owner that is not a pointer. Such a record reads back iff what comes after the 11 octets
  happens to lead to a last octet that reads as a pointer, and to the same name from there (`UncompressedReadsBackIff`);
  one label of eleven octets with the last above 191 is such a case (`ElevenOctetOwnerReadsBack`). An owner of labels that end with
  a pointer never reads back (`MixedOwnerIsMisread`, `ReadsBackIff`). So with names in ASCII a record reads back iff its owner is a
  pointer alone (`ReadsBackIffCompressed`).
- The flags of a format error go out in host order (`FormErrIsGarbled`).
- The cache simulator's shift counts are those for 64-bit addresses, and the address has 32. Where shift counts are taken modulo
  32 the fields are right all the same, but with one set (`-s 0`) the set is 0 iff the address is at the start of a block
  (`FieldsAsMeantIff`).
- The cache simulator's comments call its replacement least-recently-used. It is that on all traces iff E = 1
  (`LruIffDirectMapped`), and on every trace whose hits only repeat the access before (`LruWhenHitsRepeat`).
- The branches of `transpose_submit` for N = 32 and N = 64 transpose iff M = N (`TransposesIff`).
- The epoll server drops what it has not read when a hangup finds the response sent. Without errors an event closes a client with
  everything sent back iff it is a hangup without input, the answers of `send` take the rest of the response, and nothing is unread
  (`CompleteCloseIff`). A client that sends more and hangs up while the server is SENDING loses it (`SecondPartIsLost`).
- The select server reads each line through a copy of the client's buffer and drops what the copy had read ahead. A client gets
  back all it sent iff nothing ever was (`EchoesAllIff`, `Run`).
- `check_clients` passes over a client on descriptor 0; `nready` ends at 0 iff there is none among the ready (`CheckClients`).

## Model

| member | source | states |
|---|---|---|
| Sbuf.InsertAppends | hw/hw9/sbuf.c:28-35 | The whole of `sbuf_insert` appends the item to the live contents and keeps the ring well-formed |
| Sbuf.RemoveTakesHead | hw/hw9/sbuf.c:40-49 | The whole of `sbuf_remove` returns the oldest live item and leaves the rest in order |
| Sbuf.SharedBuffer.constructor | hw/hw9/sbuf.c:7-14 | A new buffer is empty and quiet, with n free slots |
| Sbuf.SharedBuffer.Insert | hw/hw9/sbuf.c:28-35 | Updating the struct in place is the ring's insertion: one more live item at the end, `slots + items = n` again |
| Sbuf.SharedBuffer.Remove | hw/hw9/sbuf.c:40-49 | Updating the struct in place is the ring's removal: the head is returned, the rest stays |
| PrethreadedServer.InitInv | hw/hw9/sbuf.c:7-14 | The initial state satisfies the invariant over locks, counts, registers, history, ownership and counter |
| PrethreadedServer.LockExcludes | hw/hw9/sbuf.c:31-33 | Two threads are never both between P and V of the buffer's mutex |
| PrethreadedServer.CounterExcludes | hw/hw9/echo_cnt.c:27-31 | Two workers are never both between P and V of the counter's mutex |
| PrethreadedServer.CountsKept | hw/hw9/sbuf.c:30-47 | Every step keeps: free slots, slots held by producers, occupied cells and slots owed by consumers make n; occupied cells are the items announced, owed or claimed |
| PrethreadedServer.FetchIsStored | hw/hw9/sbuf.c:43-45 | A consumer about to read a cell reads one that has been written, and it holds the oldest item not yet removed |
| PrethreadedServer.StoreIsFree | hw/hw9/sbuf.c:30-32 | A producer about to write a cell overwrites none of the waiting items |
| PrethreadedServer.StepKeepsInv | hw/hw9/sbuf.c:28-49 | Every step of every thread, with every answer of the environment, keeps the invariant |
| PrethreadedServer.ExecKeepsInv | hw/hw9/echoservert_pre.c:28-47 | So does every schedule of any number of threads |
| PrethreadedProperties.RunsAreFifo | hw/hw9/sbuf.c:32-45 | In every run the items removed are a prefix of those inserted, at most n wait, and the cells from `front` + 1 hold exactly the waiting ones in order |
| PrethreadedProperties.StepRefinesFifo | hw/hw9/sbuf.c:28-49 | Each concrete step is a step of the abstract bounded queue: a store appends, a fetch delivers the head, all others change nothing |
| PrethreadedProperties.RunsAlone | hw/hw9/sbuf.c:28-49 | A thread left alone inside `sbuf_insert` or `sbuf_remove` ends with the whole call's effect on the struct |
| PrethreadedProperties.QuietIffIdle | hw/hw9/sbuf.c:30-47 | With a worker present, nothing but accepting is possible exactly when all threads are at their loop heads and the buffer is empty |
| PrethreadedProperties.NoDeadlock | hw/hw9/sbuf.c:7-14 | With one producer and one consumer at least, every reachable state has a step that is enabled |
| PrethreadedProperties.Drain | hw/hw9/echoservert_pre.c:39-47 | From every reachable state some schedule without accepts brings all threads back to their loop heads |
| PrethreadedProperties.EveryConnectionCanBeClosed | hw/hw9/echoservert_pre.c:32-46 | From every reachable state each accepted connection can still be closed, and then it has been closed exactly once |
| PrethreadedProperties.OnePlaceEach | hw/hw9/echoservert_pre.c:32-46 | In every run an accepted connection is in exactly one place: a thread's hand, the ring or the closed list |
| PrethreadedProperties.NoSharing | hw/hw9/echoservert_pre.c:43-45 | No connection is handled by two threads, waits while it is handled, or is handled after closing |
| PrethreadedProperties.CounterConserved | hw/hw9/echo_cnt.c:26-31 | In every run `byte_cnt` plus the lines read and not yet added is all bytes read |
| PrethreadedProperties.CounterExactIff | hw/hw9/echo_cnt.c:26-31 | `byte_cnt` equals the bytes read iff no worker is between reading a line and storing the sum |
| PrethreadedProperties.LockFreeIsNotEnough | hw/hw9/echo_cnt.c:26-27 | From any state of the invariant with a worker about to read, the counter's mutex is free and `byte_cnt` is behind right after it has read |
| PrethreadedRuns.CounterIsBehind | hw/hw9/echo_cnt.c:24-27 | A schedule of the program from its start after which the mutex is free and `byte_cnt` has missed a line of any length |
| PrethreadedRuns.EveryDrainEnds | hw/hw9/echoservert_pre.c:32-46 | Once connections and lines stop coming, every order of steps ends after a number of them that the state bounds, and where no step is left no work is |
| PrethreadedRuns.EveryScheduleClosesAll | hw/hw9/echoservert_pre.c:32-46 | So from every reachable state every schedule closes every accepted connection exactly once |
| PrethreadedService.ServesAlone | hw/hw9/echo_cnt.c:19-34 | A worker left alone with a connection whose reads answer n1, ..., nk and then 0 counts all of n1 + ... + nk, closes that connection and nothing else, and waits for the next |
| PrethreadedService.ReadsUntilEnd | hw/hw9/echo_cnt.c:26-33 | In every run the reads from a connection are lines and at most one end of file, the last; it has come iff the connection is closed or in the hand of a worker about to close it; nothing is read from one that waits |
| PrethreadedService.CountsAllReads | hw/hw9/echo_cnt.c:26-31 | In every run `byte_cnt` is the sum of what has been read from all connections, less the lines in the middle of being counted |
| PrethreadedProperties.ServedInOrder | hw/hw9/echoservert_pre.c:32-43 | With a single accept loop, workers take connections in the order of acceptance |
| PrethreadedProperties.ProgramServesInOrder | hw/hw9/echoservert_pre.c:7-43 | The program with 20 cells and 4 workers serves in order and always has an enabled thread |
| ThreadedWebQueue.ClientQueue.Push | labs/threaded-webserver/http_server.c:191-197 | The array holds the old clients in order and then the new one |
| ThreadedWebQueue.ClientQueue.Pop | labs/threaded-webserver/http_server.c:203-217 | The shifting loop returns the first client and leaves the others in order |
| ThreadedWebQueue.ShiftKeepsOrder | labs/threaded-webserver/http_server.c:210-215 | Shifting the array down drops the head of the queue and keeps the order of the rest |
| ThreadedWebQueue.StepKeepsInv | labs/threaded-webserver/http_server.c:161-263 | Every step keeps: free slots, the accepting thread's slot, queued clients, popped but unposted ones and slots lost to failed accepts make `max_q_size` |
| ThreadedWebQueue.ExecKeepsInv | labs/threaded-webserver/http_server.c:155-266 | So does every schedule |
| ThreadedWebQueue.RunsAreFifo | labs/threaded-webserver/http_server.c:155-266 | In every run clients popped are a prefix of clients pushed and the array holds exactly the rest, within its bounds |
| ThreadedWebQueue.PushHasRoomPopHasItem | labs/threaded-webserver/http_server.c:174-261 | `push` never runs on a full array nor `pop` on an empty one |
| ThreadedWebQueue.StepRefinesFifo | labs/threaded-webserver/http_server.c:155-266 | Each step is a step of the same abstract bounded queue that the ring refines |
| ThreadedWebQueue.StuckIffAllSlotsLost | labs/threaded-webserver/http_server.c:234-249 | No thread can move iff all are at their loop heads and every slot was lost to a failed accept |
| ThreadedWebQueue.NoDeadlockBeforeAllLost | labs/threaded-webserver/http_server.c:161-263 | In every run with fewer failures than slots some thread can move |
| ThreadedWebQueue.FailuresCostSlots | labs/threaded-webserver/http_server.c:242-249 | k failing accepts in a row, from an idle state, cost k slots and change nothing else |
| ThreadedWebQueue.FailedAcceptsStopTheServer | labs/threaded-webserver/http_server.c:242-249 | As many failing accepts as slots stop the whole server |
| ThreadedWebRuns.EveryDrainEnds | labs/threaded-webserver/http_server.c:155-266 | While no client connects, every order of steps takes exactly as many as the state has left, less what is left after it; it can go no further iff the queue is empty and all threads wait, and then all pushed clients have been popped |
| ThreadedWebRuns.EveryRunStops | labs/threaded-webserver/http_server.c:242-249 | From any state of the invariant in which all slots are lost: whatever order the threads take and whatever accept answers, the steps left are a fixed number, and the server has stopped for good iff they are done |
| ThreadedWebRuns.AllLostStops | labs/threaded-webserver/http_server.c:155-266 | So every run from the start in which as many accepts have failed as there are slots comes to a stop |
| ThreadedWebClients.EveryClientIsSomewhere | labs/threaded-webserver/http_server.c:155-266 | In every run, as often as accept has given a client, it is on its way to the queue, in it, in the hand of a worker that popped it, or handled |
| ThreadedWebClients.EveryClientIsHandled | labs/threaded-webserver/http_server.c:155-266 | Whenever nothing can move until the next client, every client has been handled exactly as often as accept gave it |
| ThreadedWebClients.HandlesWhatItPops | labs/threaded-webserver/http_server.c:176-182 | In every run each thread handles just the clients it takes off the queue, in that order; the one it holds is the last of them |
| ThreadedWebClients.ClientsInOrder | labs/threaded-webserver/http_server.c:242-261 | With a single accept loop the clients pushed are those accept gave, in order, but for one on its way; those popped are a prefix of them |
| Orbits.HaltsIffNoRepeat | labs/dnsserverlab-handout/dns.c:150-172 | A walk over finitely many places ends iff it never comes to a place twice |
| Orbits.SameOrbitIff | labs/dnsserverlab-handout/server.c:275-305 | Two walks visit the same places iff their step functions agree on the places one of them visits |
| DnsName.NameToWire | labs/dnsserverlab-handout/dns.c:83-125 | The buffer gets the encoding of the name's labels at the given place, nothing else changes, and the length is returned |
| DnsName.NextToken | labs/dnsserverlab-handout/dns.c:105-116 | `strtok` on a dot: the next maximal dot-free run and what follows it |
| DnsName.NameFromWire | labs/dnsserverlab-handout/dns.c:127-177 | The loop yields the text of the walk from the index, and the index of the octet after the name or after its first pointer |
| DnsName.WalkStep | labs/dnsserverlab-handout/dns.c:150-172 | One turn: a label contributes itself and a dot unless a zero octet follows, a pointer contributes nothing |
| DnsNameProperties.TokensOfDotted | labs/dnsserverlab-handout/dns.c:105-118 | Splitting a dotted name gives back its labels |
| DnsNameProperties.DecodeAt | labs/dnsserverlab-handout/dns.c:127-177 | Wherever the encoding of any name with short labels stands, decoding gives its labels joined by single dots and ends just behind it |
| DnsNameProperties.DecodeOfEncode | labs/dnsserverlab-handout/dns.c:83-177 | The same for an encoding placed between any other octets |
| DnsNameProperties.RoundTrip | labs/dnsserverlab-handout/dns.c:83-177 | A name of labels without dots and zeros, of 1 to 191 octets each, comes back unchanged from any place, with the index advanced by the returned length |
| DnsNameProperties.NormalFormIsStable | labs/dnsserverlab-handout/dns.c:98-118 | Normalising a name by one round trip and encoding it again gives the same octets |
| DnsNameProperties.LongLabelIsPointer | labs/dnsserverlab-handout/dns.c:109-117 | The length octet of a label of 192 to 255 octets is taken for a pointer, and the name seems to end behind the octet after it |
| DnsRoundTrips.DecodesToIff | labs/dnsserverlab-handout/dns.c:83-177 | Wherever the encoding of a C string stands, decoding gives it back and ends behind it iff no dot of it separates nothing and every label is shorter than 192 octets |
| DnsRoundTrips.RoundTripIff | labs/dnsserverlab-handout/dns.c:83-177 | Labels of any length, free of dots and zeros, come back iff all are shorter than 192 octets |
| DnsRoundTrips.DecodedIsShort | labs/dnsserverlab-handout/dns.c:150-172 | Whatever the decoder returns, its labels are short enough to be encoded again |
| DnsRoundTrips.QuestionDecodes | labs/dnsserverlab-handout/dns.c:179-236 | In question mode an encoded name of short labels gives its normal form with type and class |
| DnsNameProperties.WalkHaltsIff | labs/dnsserverlab-handout/dns.c:150-172 | The decoding loop ends iff it comes to no octet twice |
| DnsNameProperties.DescendingPointersEnd | labs/dnsserverlab-handout/dns.c:151-158 | It ends when every pointer leads below the start of the segment being read |
| DnsNameProperties.BackwardPointerCanCycle | labs/dnsserverlab-handout/dns.c:151-158 | A buffer whose only pointer leads below itself and yet is decoded for ever |
| DnsNameProperties.WalkIsDotted | labs/dnsserverlab-handout/dns.c:159-171 | The text is the labels joined by single dots, with one dot too many at the end iff the walk ends in a pointer to the root after a label |
| DnsNameProperties.DottedIffNoRootPointer | labs/dnsserverlab-handout/dns.c:167-170 | The text is the labels joined by single dots iff no label is followed by a pointer to the root |
| DnsNameProperties.SameWalkAsStandardIff | labs/dnsserverlab-handout/dns.c:151-158 | On a name that the rules of section 4.1.4 of RFC 1035 expand, following pointers wherever they lead, the decoder visits the same places iff every pointer met fits one octet |
| DnsNameProperties.DecodesAsStandard | labs/dnsserverlab-handout/dns.c:127-177 | With such pointers the labels are those of RFC 1035, and the text is their dotted form iff there is no pointer to the root |
| DnsNameProperties.ExpandsIff | labs/dnsserverlab-handout/dns.c:127-177 | The rules of section 4.1.4 expand a name with one-octet pointers iff the decoder ends and meets only octets below 64 or equal to 192 |
| DnsNameProperties.EarlierNamesExpand | labs/dnsserverlab-handout/dns.c:127-177 | Where it meets only those and pointers lead below the start of the segment being read, the labels it reads are the expansion |
| DnsWholeReply.StandardNames | labs/dnsserverlab-handout/dns.c:127-177 | The four names of the example in section 4.1.4 of RFC 1035 are read as it says |
| DnsRecord.RrToWire | labs/dnsserverlab-handout/dns.c:239-284 | The record's octets are written at the place, one octet left untouched when the encoded name is as long as the text, and the length is returned |
| DnsRecord.RrFromWire | labs/dnsserverlab-handout/dns.c:179-236 | The record parsed at the index, with the 11-octet skip for an owner that is not a pointer, and the index after it |
| DnsRecord.FixedRoundTrip | labs/dnsserverlab-handout/dns.c:205-284 | Type, class, ttl, length and data come back unchanged from where they were written |
| DnsReply.FieldsIff | labs/dnsserverlab-handout/dns.c:205-284 | The numbers are read as one octet after the other, the highest first, as section 2.3.2 of RFC 1035 orders them |
| DnsRoundTrips.QuestionRoundTripIff | labs/dnsserverlab-handout/dns.c:179-284 | A written record with any C string as its name gives back name, type and class in question mode iff the name is normal with labels shorter than 192 octets |
| DnsRecord.RecordRoundTrip | labs/dnsserverlab-handout/dns.c:197-236 | A record behind a compressed owner comes back with all its fields, and the index ends behind it |
| DnsRecord.UncompressedOwnerIsMisread | labs/dnsserverlab-handout/dns.c:200-204 | A concrete record with its owner written out that is read back wrongly |
| DnsUncompressed.UncompressedReadsBackIff | labs/dnsserverlab-handout/dns.c:200-236 | For every clean name a record with its owner written out reads back iff the octets behind the 11 skipped lead to a last one that reads as a pointer to offset 0, and the text on the way and there spells the name |
| DnsUncompressed.PlainOwnerIsMisread | labs/dnsserverlab-handout/dns.c:200-204 | With no octet above 191 in the name it never reads back |
| DnsUncompressed.MixedOwnerIsMisread | labs/dnsserverlab-handout/dns.c:197-204 | Behind an owner of one or more labels and a pointer a record never reads back, whatever the labels' octets |
| DnsUncompressed.ReadsBackIff | labs/dnsserverlab-handout/dns.c:197-236 | Behind an owner in any of the three forms of section 4.1.4 of RFC 1035 a record with a clean name reads back with all fields iff the owner is a pointer alone, or written out with the octets behind the skip pointing home |
| DnsUncompressed.ReadsBackIffCompressed | labs/dnsserverlab-handout/dns.c:197-236 | With no octet above 191 in the name it reads back iff the owner is a pointer alone |
| DnsUncompressed.ElevenOctetOwnerReadsBack | labs/dnsserverlab-handout/dns.c:200-204 | A family of written-out owners that do read back: at offset 0, one label of eleven octets, the last above 191 |
| DnsServer.FirstMatchIsFirst | labs/dnsserverlab-handout/server.c:275-295 | The scan stops at the first live entry with the name that has the asked type or is an alias |
| DnsServer.IsValidRequest | labs/dnsserverlab-handout/server.c:118-155 | True iff QR is clear, the opcode is 0 and there is exactly one question |
| DnsReply.ValidRequestIff | labs/dnsserverlab-handout/server.c:118-155 | A request is taken iff the five high bits of its third octet are 0 and its fifth and sixth octets are 0 and 1 |
| DnsReply.QuestionAsked | labs/dnsserverlab-handout/server.c:157-175 | The question answered is the name, type and class that stand behind the header |
| DnsServer.ScanEntry | labs/dnsserverlab-handout/server.c:275-305 | One turn of the loop keeps the answers sent so far a part of the chain, and comes closer to its end |
| DnsServer.AppendAnswers | labs/dnsserverlab-handout/server.c:269-306 | The loop with its restarts writes exactly the records of the alias chain, counts them, and reports whether the last has the asked type |
| DnsServer.PatchHeader | labs/dnsserverlab-handout/server.c:307-319 | The late patches change flags and answer count in the header and no other octet |
| DnsServer.GetResponse | labs/dnsserverlab-handout/server.c:177-323 | A valid request gets exactly header, question and answer records, with the returned length; an invalid one the flags in host order and length 12 |
| DnsServerProperties.AnswersFormAliasChain | labs/dnsserverlab-handout/server.c:275-305 | The answers start at the question's name, each alias leads to the next owner, all are live, and the last is final iff something was found |
| DnsServerProperties.TargetStopsAtZero | labs/dnsserverlab-handout/server.c:283-302 | An alias leads to the name its data spells, as a C string: up to a zero octet inside a label |
| DnsServerProperties.LookupEndsIff | labs/dnsserverlab-handout/server.c:275-305 | The lookup ends iff it uses no alias twice and the decoder ends inside the data buffer of each alias it uses |
| DnsServerProperties.AcyclicLookupEnds | labs/dnsserverlab-handout/server.c:295-304 | It ends whenever all aliases decode and descend in some ranking of names |
| DnsServerProperties.AllLookupsEndIff | labs/dnsserverlab-handout/server.c:275-305 | All lookups in a cache end iff every entry in use decodes if it is an alias, and they can be ranked so that each alias ranks above the entry its restart finds |
| DnsServerProperties.AliasCycleNeverEnds | labs/dnsserverlab-handout/server.c:295-304 | Two aliases that answer each other's target keep it going for ever |
| DnsExamples.MutualAliasesNeverEnd | labs/dnsserverlab-handout/server.c:295-304 | A cache of three entries, two of them aliases for each other, on which a lookup never ends |
| DnsExamples.LongTargetNeverEnds | labs/dnsserverlab-handout/server.c:101-302 | A line of the cache file, an alias for a label of 192 octets, whose data is decoded for ever: its lookup uses no alias twice and never ends |
| DnsStandard.AnswersAsStandardIff | labs/dnsserverlab-handout/server.c:269-306 | For every cache, class and name and every type but ANY: the program ends with the records section 4.3.2 of RFC 1034 copies, in that order, iff the name and each target on the standard's way lead it to the node's first record, and the last node has one record to copy |
| DnsStandard.OrderlyAnswersIff | labs/dnsserverlab-handout/server.c:269-306 | In a cache of the class asked, with names in normal form without capitals, aliases that decode and stand alone: the answers are the standard's iff no alias on the way is answered by entry 0 and the last name has one live record of the type |
| DnsStandard.NameErrorCases | labs/dnsserverlab-handout/server.c:307-311 | In such a cache code 3 is sent for every name that does not exist, and for one that does iff it has neither an alias nor the type, or its aliases lead nowhere |
| DnsStandard.AnyTypeIsIncomplete | labs/dnsserverlab-handout/server.c:285-295 | Asked for ANY, every record of the name that is no alias is in the standard's answer and not in the program's |
| DnsStandard.AnyTypeIff | labs/dnsserverlab-handout/server.c:269-306 | In an orderly cache the answers to such a question are the standard's iff the name owns nothing, or one alias whose target the restart does not find (or one record of the reserved type 255) |
| DnsStandard.AgreesWithWholeScanIff | labs/dnsserverlab-handout/server.c:303-305 | The lookup visits the same entries as one whose scans all start at entry 0 iff no alias on the way has its target answered by entry 0 |
| DnsStandard.AnswersAsWholeScanIff | labs/dnsserverlab-handout/server.c:269-306 | Where both end, their answers are the same iff so |
| DnsStandard.AnswersAsWholeScan | labs/dnsserverlab-handout/server.c:269-306 | When entry 0 is no alias's target every question gets the answers of the lookup that scans from entry 0 |
| DnsStandard.TargetInEntryZeroIsMissed | labs/dnsserverlab-handout/server.c:303-305 | An alias whose target only entry 0 holds leaves the question unanswered |
| DnsExamples.AddressInFrontIsMissed | labs/dnsserverlab-handout/server.c:303-305 | A cache of an address and, behind it, an alias for it: the standard gives both records, the program the alias and "no such name" |
| DnsExamples.SecondAddressIsMissed | labs/dnsserverlab-handout/server.c:285-294 | A cache with two addresses of one name and no alias: the standard gives both, the program the first |
| DnsExamples.ClassIsIgnored | labs/dnsserverlab-handout/server.c:283-285 | A cache with an address in another class: asked for IN the standard gives nothing, the program that address |
| DnsExamples.CapitalsAreMissed | labs/dnsserverlab-handout/server.c:283 | A cache in small letters, asked in capitals: the standard gives the address, the program nothing |
| DnsExamples.NoDataIsNameError | labs/dnsserverlab-handout/server.c:307-311 | A cache in which the name exists without the type asked for: the program's answer is that of a name error |
| DnsServerProperties.ReplyLayout | labs/dnsserverlab-handout/server.c:223-322 | The returned length is 12 plus the question plus the records, and these stand in that order |
| DnsServerProperties.ReplyHeader | labs/dnsserverlab-handout/server.c:223-319 | Every field of the header by section 4.1.1 of RFC 1035: ID and RD copied, QR set, opcode, AA, TC, RA and Z 0, code 0 or 3, one question, the number of answers, no other records |
| DnsServerProperties.ReplyQuestion | labs/dnsserverlab-handout/server.c:255-266 | The question section of every reply reads back as the name asked for in its normal form, with type and class: the question itself iff that name was normal |
| DnsReply.ReplyRecord | labs/dnsserverlab-handout/server.c:269-322 | Behind the question of every reply stand, one right behind the other and nothing after, the records of the entries used: owner, type, class, the seconds left as TTL, and the data, given octet by octet |
| DnsWholeReply.WholeReply | labs/dnsserverlab-handout/server.c:177-323 | One request of 19 octets and the 52 octets of the reply to it, an alias and an address |
| DnsServerProperties.FormErrIsGarbled | labs/dnsserverlab-handout/server.c:236-242 | The reply to an invalid request, read in network order, has QR clear, and the code of a format error iff the request had RD set |
| DnsServerProperties.LoadEntry | labs/dnsserverlab-handout/server.c:72-109 | The words of a line give owner, class, type and expiry; the entry is fit for the lookup, and an alias's data decodes to its target, if that can be encoded |
| DnsServerProperties.LoadedAlias | labs/dnsserverlab-handout/server.c:101-108 | A loaded CNAME entry has data that decodes to its target in normal form |
| FloatRounding.FloatI2F | labs/lab1/bits.c:412-434 | For every width and every two's-complement integer the result is a finite pattern nearest to it, the even one of two |
| FloatRounding.Normalise | labs/lab1/bits.c:426-429 | The loop ends with the top bit set, the magnitude doubled s times and the exponent lowered by s |
| FloatRounding.RoundWord | labs/lab1/bits.c:430-433 | The shift, the mask and the condition on the low bits compute the rounded exponent and fraction fields together |
| FloatRounding.WordRounds | labs/lab1/bits.c:430-433 | A normalised word's fields, with the sign, round the integer, also when the carry runs into the exponent |
| FloatRounding.MagnitudeRounded | labs/lab1/bits.c:430-433 | The decision on the dropped bits picks a nearest pattern among all, the even one half-way |
| FloatRounding.NextMagnitude | labs/lab1/bits.c:432-433 | Adding 1 to a pattern adds one unit in the last place, across exponents too |
| FloatRounding.MinIntRounds | labs/lab1/bits.c:420-421 | The special case for the most negative integer is exact |
| FloatRounding.RoundingIsUnique | labs/lab1/bits.c:412-434 | Nearest, ties to even, determines the value: no other rounding of the same integer has a different one |
| FloatRounding.ExactWhenRepresentable | labs/lab1/bits.c:412-434 | An integer that some pattern represents is converted without error |
| FloatRounding.OneIsOne | labs/lab1/bits.c:412-434 | With the bias of section 3.4 of IEEE 754-2008 the pattern of exponent field 2^(k-1) - 1 and fraction 0 has the value 1, in every format |
| FloatRounding.SingleIsInterchange | labs/lab1/bits.c:417 | The format used is binary32: its bias is that one, and 0x3F800000 is 1 |
| FloatRounding.FloatI2FSingle | labs/lab1/bits.c:412-434 | The case of 32-bit integers and binary32 of section 3.4 of IEEE 754-2008 |
| Rio.ReadN | hw/hw9/csapp.c:738-757 | Despite short reads and interruptions: n bytes or all there are, in order; after an error a prefix |
| Rio.WriteN | hw/hw9/csapp.c:764-781 | All n bytes are written, or an error is reported after a prefix of them |
| Rio.Reader.constructor | hw/hw9/csapp.c:826-831 | A new reader's stream is what is left in the descriptor |
| Rio.Reader.Refill | hw/hw9/csapp.c:798-809 | Refilling never changes the stream; it ends with bytes waiting, at end of file or with an error |
| Rio.Reader.Read | hw/hw9/csapp.c:794-820 | Some bytes, at least one, move from the front of the stream to the user; 0 only at its end |
| Rio.Reader.ReadNB | hw/hw9/csapp.c:838-853 | Exactly the next n bytes of the stream, or what is left; buffer and descriptor keep the rest |
| Rio.Reader.ReadLineB | hw/hw9/csapp.c:860-882 | Exactly the next line, up to the first line feed, maxlen - 1 bytes or the end, then a zero byte, which end of file at once leaves out; buffer and descriptor keep the rest |
| Rio.LineIsShortest | hw/hw9/csapp.c:865-879 | That line is the shortest prefix that ends in a newline, fills maxlen - 1 or exhausts the stream |
| Rio.NextLineIs | hw/hw9/csapp.c:865-879 | In terms of maxlen alone: no line feed but at the end, at most maxlen - 1 bytes, and less only up to a line feed or the end of the stream; one length only fits that |
| Rio.LineOfText | hw/hw9/csapp.c:865-879 | Of "hi", a line feed and "!" the line is three bytes, or maxlen - 1 |
| RioClients.PiecesMakeTheStream | hw/hw9/csapp.c:794-882 | The pieces any mix of calls is due and what is left make the stream: nothing lost, repeated or reordered |
| RioClients.Session | hw/hw9/csapp.c:794-882 | What any mix of calls delivers depends on the stream and the calls alone, not on how the reads fell |
| RioClients.Echo | hw/hw9/echo.c:7-18 | What is written is what was read, all of it unless there is an error |
| Transpose.RowOfTile | labs/cachelab/trans.c:39-53 | One row of a tile: its cells are copied, the deferred store writes the right diagonal element, even on rows that meet none |
| Transpose.Tile | labs/cachelab/trans.c:80-92 | A whole tile is copied and every other cell of B left alone |
| Transpose.Tiled | labs/cachelab/trans.c:78-94 | The tiles cover every cell, and each cell off the diagonal is stored to exactly once |
| Transpose.TransposeSubmit | labs/cachelab/trans.c:23-96 | The three branches: covered columns of A become rows of B, others are left as they were, one store per cell off the diagonal |
| Transpose.Trans | labs/cachelab/trans.c:107-118 | The double loop makes B the transpose of A |
| Transpose.TransposesIff | labs/cachelab/trans.c:33-78 | The submission transposes all contents iff N is neither 32 nor 64 or M = N |
| CacheSim.FieldsNameTheBlock | labs/cachelab/csim.c:337-343 | Two addresses agree in set index and tag iff they lie in the same block |
| CacheShifts.FieldsAsMeantIff | labs/cachelab/csim.c:337-343 | With fewer than 32 field bits and shift counts taken modulo 32: the tag is the field meant, and so is the set index iff there are index bits or the address is that of a block's first byte (0 with blocks of one byte) |
| CacheSim.Cache.constructor | labs/cachelab/csim.c:222-248 | All lines start invalid and all counters at 0 |
| CacheSim.Cache.FindEmptyLine | labs/cachelab/csim.c:272-280 | The first invalid line, or -1 |
| CacheSim.Cache.FindLru | labs/cachelab/csim.c:288-311 | The first line of minimal count, that count, and the maximal one |
| CacheSim.Cache.Scan | labs/cachelab/csim.c:349-365 | The scan counts every line that answers to the tag and bumps just those |
| CacheSim.Cache.Fill | labs/cachelab/csim.c:378-391 | A miss goes to the first invalid line, or evicts the line of least count, with a count above all others |
| CacheSim.Cache.CacheSimulate | labs/cachelab/csim.c:331-396 | One access updates its set and the three counters as specified and no other set |
| CacheSim.Cache.Simulate | labs/cachelab/csim.c:99-111 | A whole trace is the run of its data accesses, M counted twice |
| CacheProperties.AtMostOneMatch | labs/cachelab/csim.c:349-365 | With distinct tags the unbroken scan counts a hit once, iff the tag is there |
| CacheProperties.AccessEffect | labs/cachelab/csim.c:349-391 | An access keeps the valid lines a prefix with distinct tags; it hits iff the tag is there and evicts iff it misses in a full set |
| CacheProperties.AccessHolds | labs/cachelab/csim.c:349-391 | After an access the set holds that tag and all others but the evicted one |
| CacheProperties.EvictsIffMoreTagsThanLines | labs/cachelab/csim.c:331-396 | A set evicts nothing iff at most E different tags come by, and then misses once for each; valid lines are misses minus evictions |
| CacheProperties.DirectMappedHitsIffRepeated | labs/cachelab/csim.c:331-396 | With E = 1 an access hits iff the one before it in the set had the same tag |
| CacheProperties.SecondAccessHits | labs/cachelab/csim.c:106-108 | The second access of an M hits |
| CacheProperties.SurvivesMisses | labs/cachelab/csim.c:288-391 | A tag just filled survives the next E - 1 misses of its set |
| CacheLru.LruWhenHitsRepeat | labs/cachelab/csim.c:282-311 | When every hit repeats the access before it, the set holds what least-recently-used replacement would hold |
| CacheLru.HitLineIsEvicted | labs/cachelab/csim.c:355-384 | For every E >= 2 a trace on which the tag used last is evicted first |
| CacheLru.HotTagSurvivesIff | labs/cachelab/csim.c:282-391 | For every E >= 2, a tag hit k times after the set was filled outlives the next miss iff k >= 2 |
| CacheLru.LruIffDirectMapped | labs/cachelab/csim.c:282-311 | The replacement is least-recently-used on all traces iff E = 1 |
| CacheTotals.SetsAreIndependent | labs/cachelab/csim.c:337-346 | Each set ends as if its own accesses had been the whole trace |
| CacheTotals.CountersAddUp | labs/cachelab/csim.c:349-391 | Over every trace hits + misses is the number of accesses, and the lines in use are misses - evictions |
| CacheTotals.MissesCountBlocks | labs/cachelab/csim.c:331-396 | Every block touched misses at least once, and exactly once if nothing is evicted |
| CacheTotals.NoEvictionsIff | labs/cachelab/csim.c:381-384 | A trace runs without evictions iff no set sees more than E different tags |
| CacheTotals.EveryModifyHits | labs/cachelab/csim.c:106-108 | There are at least as many hits as M lines in the trace |
| CacheTotals.AccessesCounted | labs/cachelab/csim.c:99-111 | A trace makes one access for each L and S line and two for each M line |
| CacheTotals.TouchedAreNamed | labs/cachelab/csim.c:99-111 | The blocks touched are those that the L, S and M lines name |
| CacheTotals.Summary | labs/cachelab/csim.c:76-123 | The counters printed are those of the run: hits + misses are the L and S lines and twice the M lines, there are at least as many hits as M lines, and at least as many misses as blocks named, exactly as many without evictions |
| EpollModel.EventKeepsOrder | src/epoll_server_example.c:147-189 | Whatever recv and send answer, an event loses nothing, sends only what has been read, in order, and leaves sent and read equal when RECEIVING |
| EpollModel.RunsEchoPrefix | src/epoll_server_example.c:111-191 | In every run of a connection the bytes sent are a prefix of those read, which are a prefix of the client's; equal when RECEIVING |
| EpollModel.TransmitIff | src/epoll_server_example.c:379-407 | The whole response goes out iff the answers of `send` before the first refusal take as many bytes |
| EpollModel.BrokenIff | src/epoll_server_example.c:379-407 | Sending fails iff the response does not fit what the calls take before the first refusal, and that is an error |
| EpollModel.ReceiveStopsOnlyAt | src/epoll_server_example.c:326-366 | Receiving uses the answers in turn and leaves bytes unread only at "not now", at an error, or when there are no more answers |
| EpollModel.ErrorCloses | src/epoll_server_example.c:208-274 | An error while receiving or sending closes the client, whatever else the event says |
| EpollModel.ClosesIff | src/epoll_server_example.c:147-189 | Without errors an event closes the client iff it is a hangup without input and the client is RECEIVING or the answers of `send` take the rest |
| EpollModel.CompleteCloseIff | src/epoll_server_example.c:173-188 | It closes the client with all of its bytes sent back iff moreover nothing is unread before the event |
| EpollModel.SecondPartIsLost | src/epoll_server_example.c:161-188 | For all a and b: a is read, then b and a hangup come while SENDING; the client is closed with a sent back and b unread |
| EpollEcho.Client.constructor | src/epoll_server_example.c:281-306 | A new client is RECEIVING, registered for input, with empty buffers |
| EpollEcho.Client.Append | src/epoll_server_example.c:352-363 | The received bytes go behind what is in the buffer, which grows when needed and never overflows |
| EpollEcho.Client.RecvData | src/epoll_server_example.c:326-366 | The loop over the growing buffer computes `EpollModel.Receive` of the answers |
| EpollEcho.Client.RecvRequests | src/epoll_server_example.c:208-238 | What came in becomes the response and the client SENDING, or DISCONNECTED after an error |
| EpollEcho.Client.SendData | src/epoll_server_example.c:379-407 | The loop computes `EpollModel.Transmit` of the answers; 0 is returned iff all has gone out |
| EpollEcho.Client.SendResponses | src/epoll_server_example.c:248-274 | Back to RECEIVING with empty buffers iff everything read has been sent; otherwise the rest stays pending |
| EpollEcho.Client.Handle | src/epoll_server_example.c:147-189 | The loop body computes `EpollModel.OnEvent`, keeps the buffers in bounds, and leaves the client registered for input iff RECEIVING and for output iff SENDING |
| EpollEcho.Run | src/epoll_server_example.c:111-191 | Any sequence of events computes `EpollModel.Events`; sent is a prefix of read, equal when RECEIVING |
| SelectPool.Pool.constructor | hw/hw8/echoservers.c:57-69 | Only the listening descriptor is watched and no slot is taken |
| SelectPool.Pool.AddClient | hw/hw8/echoservers.c:73-95 | The client gets a slot, always; watched descriptors stay the listening one and the distinct clients, bounded by `maxfd`, slots above `maxi` free |
| SelectPool.SomeSlotIsFree | hw/hw8/echoservers.c:93-94 | The error for too many clients cannot happen: there are as many slots as descriptors |
| SelectPool.Pool.EchoLine | hw/hw8/echoservers.c:111-124 | The client's next line is counted in `byte_cnt` and written back, and what was read ahead behind it is gone; at end of file the client leaves the pool and the watched set |
| SelectPool.Pool.CheckClients | hw/hw8/echoservers.c:99-127 | The loop with the early exit serves each ready client exactly once in slot order: it gets its next line, or is dropped iff it has sent all; `nready` ends at 0 unless a ready client has descriptor 0 |
| SelectPool.ScanComplete | hw/hw8/echoservers.c:105-111 | When the loop stops, at `maxi` or at `nready` = 0, every ready client with a positive descriptor has been reached |
| SelectPool.Pool.Turn | hw/hw8/echoservers.c:38-52 | One turn of the server loop: the served are exactly the ready clients, none twice, each with its next line or dropped; a new client joins after; and the pool's invariant holds again |
| SelectPool.Run | hw/hw8/echoservers.c:28-53 | After any number of turns, whatever select and accept answer: each descriptor has got back in order the lines of the clients it was given to, but for those unread, which only present clients have; `byte_cnt` is the bytes written back |
| SelectPool.EchoedInOrder | hw/hw8/echoservers.c:99-127 | Balanced books, which every turn keeps, mean that what was written back and the lines unread are the lines sent |
| SelectPool.EchoesAllIff | hw/hw8/echoservers.c:107-119 | The lines echoed are all the bytes sent iff nothing was read ahead of any line |

## Left out

- Sockets, processes, signals, files and printing: what the kernel answers is left open by nondeterministic choice or is a parameter.
- Interleavings are a step system on values, not methods on a shared object: a method runs alone. `Sbuf.SharedBuffer` and `ClientQueue` are the objects, and their calls are tied to the step systems.
- `front`, `rear`, `byte_cnt`, `accessCount` and the cache's counters are unbounded; in C they wrap or overflow after 2^31 steps.
- Allocation and fixed-size buffers: names under BUFFER_MAX octets and a reply that fits its buffer are preconditions, and the decoder's precondition is that its walk stays inside the message.
- Interrupted `sem_wait` in the threaded web server, which falls through as if it had succeeded, and its shutdown.
- DnsStandard.AnswersAsStandardIff: of section 4.3.2 of RFC 1034 the search of a cache only; zones, referrals, wildcards and additional records do not occur in the program. QTYPE ANY has AnyTypeIff in its place, for orderly caches.
- DnsNameProperties.DecodesAsStandard: section 4.1.4 speaks of pointers to prior names; the expansion here follows forward pointers too, as the code does.
- `htons`, `ntohs` and SWAP_ENDIAN_32 are modelled as network byte order on a little-endian host.
- Fields that `rr_from_wire` leaves uninitialised in question mode have no counterpart: a question has three fields only.
- The text `name_ascii_from_wire` allocates is a sequence, not an array.
- `write` and `send` of at least one byte returning 0.
- What `read`, `recv` and `select` deliver after an error; the peer's timing beyond the order of its bytes.
- Rio.ReadN: bytes read before an error stay in the user's buffer, but the C code does not say how many; the count is a ghost result here. The same holds of ReadNB and ReadLineB.
- SelectPool.Pool.EchoLine: how a client's bytes fall into lines and what is read ahead is given with the client, not derived from `Rio.Reader`; read errors end the program.
- SelectPool.Pool.AddClient: descriptors are below FD_SETSIZE, as FD_SET itself needs.
- CacheSim.FieldsNameTheBlock: speaks of the address fields meant, as CacheSimulate does; CacheShifts says when the code's shifts give them.
- CacheSim.Cache.CacheSimulate: tag and set index are the address fields meant. The C standard leaves shifts by 32 and more undefined; CacheShifts supposes a processor that takes the count modulo 32.
- CacheShifts.FieldsAsMeantIff: fewer than 32 field bits; with 32 or more no address bit of the tag is left.
- Transpose.TransposeSubmit: for N = 32 and N = 64 it requires M >= N, because the code indexes up to N whatever M is.
- EpollModel.ClosesIff: supposes that no call fails; ErrorCloses has the other case.
- What `echo_cnt` writes back touches no shared memory and is not a step of `PrethreadedServer`; `RioClients.Echo` is that loop without the counter.
- DnsServerProperties.LoadEntry: reading the line and splitting it into words is not part of this model, nor is `inet_pton`.
- EpollEcho.Run: one client; events of different clients share no state but the epoll set.
- `float_twice` on the largest exponent gives a NaN pattern; the other puzzles of `labs/lab1/bits.c` are one-liners and are not modelled.
- `labs/dnsresolverlab-handout/resolver.c`, an earlier copy of the codec whose name length is right only for three labels.
- `sio_ltoa`, `sio_reverse`, `labs/event-webserver`, `labs/webserver-handout`, the fork exercises and the scripts.
