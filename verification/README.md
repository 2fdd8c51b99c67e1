# IP over NDN gateway: a verified model

A gateway of this system captures IP packets, numbers them per 4-tuple, publishes each under an NDN name and announces
it with a "pre" Interest. The far gateway turns an announcement into a formal Interest for that packet, asks
speculatively for the next sixty packets of the flow, and re-injects what comes back to the address it reads out of the
Data name. This project models the announce / pull / guess protocol, the name codec it rests on, the concurrent tables
and thread pool, and the packet arithmetic of the capture path, and proves what they are for.

| file | models |
|---|---|
| `Words.dfy`, `Text.dfy` | fixed-width words on a little-endian host; `to_string`, `boost::split`, `lexical_cast<int>` |
| `Names.dfy` | `buildName`, `build4TupleKey`, the parsing in `dealOnInterest` / `dealOnData`, filter dispatch |
| `Guessing.dfy` | the guess table and the Interests of one receiver, over flows and numbers, for every history of arrivals |
| `Tables.dfy`, `Gateway.dfy` | the classes: `MapCacheHelper`, `SetHelper`, `NDNHelper`, `LibPcapHelper` |
| `Tunnel.dfy` | sender, lossy / reordering / duplicating network and receiver as one transition system over real names |
| `Deliveries.dfy` | what runs of the tunnel deliver, how often, and which histories of arrivals they have |
| `SequenceRace.dfy` | threads inside `getAndIncreaseSequence`, interleaved at the inner get, erase and save |
| `Pool.dfy` | `ThreadPool`, interleaved at its critical sections and notifications |
| `Checksum.dfy`, `Decode.dfy`, `Capture.dfy` | `in_chksum_ip`, `decode` and its counters, one frame from the wire to the published name |
| `TupleText.dfy` | `print_tuple` and `read_tuple` |

How the layers connect: the methods of `Gateway` are proved to have the effects `InterestEffect`, `DataEffect` and
`DealEffect`; `Tunnel` takes exactly these effects as its steps, and shows that the receiver's string table and request
log are the images of `Guessing.Table` and `Guessing.Log` under the (injective) naming of packets, so every theorem about
histories of items holds of the strings of every run; `Deliveries.ArrivalHistories` says which histories runs have.

What the model takes as given:

- the host is little-endian, so `ntohl` and `ntohs` reverse bytes;
- sequence numbers stay at or below 2^31 - 1 - 60 (`MAX_SEQUENCE`), because the table and the loop variable are `int`;
- `deal` handles one packet at a time, since `handleRead` re-arms only after it returns;
- the `int` number printed with each Interest wraps around, one `NDNHelper` exists (main.cpp:19), so its static counter
  is a field, and its unlocked `++` in the capture thread and in the NDN thread (main.cpp:39-42) never collide;
- what a program does after reading outside of a buffer is not modelled, only when it comes to that;
- UUIDs are fresh and contain no slash;
- the frame buffer is long enough for the fields `decode` loads;
- published Data stays available, and an Interest is answered only by published Data its name is a prefix of, at most
  once each time it is expressed;
- names consist of characters `toUri` does not escape.

Where the code does something other than its comments or a reader expect, the model follows the code; a lemma says when
exactly the expectation holds, and another gives an input on which it does not:

- `buildName` is commented as converting ports to host order, but `decode` already has: `Decode.NamesShowPortsSwapped`,
  `Decode.UntaggedFrameMisread`.
- `ipSize` subtracts an untagged link header from tagged frames too: `Decode.ContentEndsWithCapture`,
  `Decode.TaggedFrameMisread`. The filters in config/ select untagged frames; the code takes both.
- `handleRead` ignores the status, so `deal` may read what is not there: `Capture.ReadFrame`,
  `Capture.ZeroFrameOverreads`, `Capture.TaggedFrameOverreads`.
- a frame can be valid without the address fields its name is made of: `Capture.DestinationShownIff`,
  `Capture.ShortFrameValid`.
- a name announced once can be requested three times, by reordering alone: `Guessing.SingleAnnouncementCost`,
  `Deliveries.ReorderedRunAsksThrice`.
- a plain `get` can miss a key that is in use: `SequenceRace.ReaderCanMiss`, `SequenceRace.OutsideReaderMisses`,
  `SequenceRace.MissedAfterErase`.
- a pool of no workers drops its tasks: `Pool.EachTaskOnce`, `Pool.NoWorkersDropTasks`.

`reset_stat` never clears `seq_count`, whatever its name suggests: `Decode.Decoder.ResetStat`.

`Pool` and `SequenceRace` are transition systems on values rather than classes, because their subject is the
interleaving of several threads; everything else that the source updates in place is a class or a method with a loop.

## Model

| member | source | states |
|---|---|---|
| Tunnel.EndToEndSafety | helper/LibPcapHelper.cpp:90-146 | after any run, with announcements lost, reordered and duplicated at will, no two publications share a name, and everything re-injected is byte for byte a captured packet sent to its own destination |
| Deliveries.LossFreeDelivery | helper/NDNHelper.cpp:103-182 | from every reachable state in which `deal` is idle, any packet whose number is in range and whose UUID is fresh can go through its five steps (capture, publication, announcement, its delivery, the answer to the formal request it causes), and they re-inject that packet intact at its own destination |
| Tunnel.SenderNumbering | helper/LibPcapHelper.cpp:92-129 | after any run the TCP (6) and UDP (17) packets of a 4-tuple, mixed in any way, carry 1, 2, ..., n in capture order, all other packets carry a UUID, and the counter of each 4-tuple is the number of its TCP and UDP packets |
| Tunnel.PublishBeforeAnnounce | helper/LibPcapHelper.cpp:109-128 | in every reachable state each announcement in flight translates to the name of Data already published |
| Tunnel.FormalRequestsPublished | helper/NDNHelper.cpp:131-179 | only guesses run ahead of the sender: after any run every packet formally requested, TCP, UDP or other, is published, and other protocols are never requested before |
| Tunnel.HandlersNeverFault | helper/NDNHelper.cpp:107-171 | no handler the network can trigger in any run indexes a missing field, meets a number it cannot parse or leaves the range of int |
| Tunnel.RequestsBounded | helper/NDNHelper.cpp:146-164 | after any run a packet's data name was requested exactly as often as the arrival history says, at most twice per arrival of its announcement plus once, and the guess table is the one that history determines |
| Tunnel.OtherRequestsExact | helper/NDNHelper.cpp:165-179 | after any run a packet of another protocol has been requested exactly as often as its announcement was delivered |
| Tunnel.RequestsIgnored | helper/NDNHelper.cpp:36-47 | a request matches a filter bound with its own flags, and the handler does nothing with it |
| Deliveries.ArrivalHistories | helper/NDNHelper.cpp:124-182 | the histories of arrivals that runs have are exactly the sequences of announcements numbered 1 to 2^31 - 61, in any order, with any losses and repetitions |
| Deliveries.CaptureIff | helper/LibPcapHelper.cpp:90-146 | after any run a packet can be captured exactly when deal is idle, its UUID is fresh and, for TCP and UDP, fewer than 2^31 - 61 of its flow came before it |
| Deliveries.BoundReachedInRuns | helper/NDNHelper.cpp:147-163 | for every number k of arrivals some run requests a packet 2k + 1 times exactly when the packet is not the first of its flow |
| Deliveries.ReorderedRunAsksThrice | helper/NDNHelper.cpp:147-163 | a run of three captured packets, their announcements delivered once each in the order 2, 3, 1, requests the third three times |
| Deliveries.CapturedPacketsRequested | helper/NDNHelper.cpp:153-164 | if the arrived announcements of a flow leave gaps of at most 61, every captured packet from the least arrival to sixty past the greatest has had its data name requested |
| Deliveries.GapsAreBridged | helper/NDNHelper.cpp:103-164 | under that condition every published packet in range has been re-injected, or some request of it is open and its answer re-injects it, whether or not its own announcement arrived |
| Deliveries.RequestedIsSent | helper/NDNHelper.cpp:103-115 | a published packet that has been requested has been re-injected, or the answer to that request is possible and re-injects it |
| Deliveries.CopiesBounded | helper/NDNHelper.cpp:103-164 | after any run what was re-injected is what the answers brought, one for one; a packet was re-injected at most as often as requested, so at most twice per arrival of its announcement plus once if TCP or UDP, and at most once per delivery of it otherwise |
| Deliveries.CopiesBoundReached | helper/NDNHelper.cpp:103-164 | for every number k of arrivals some run re-injects a captured packet 2k + 1 times exactly when the packet is not the first of its flow |
| Tunnel.AnnouncementRefines | helper/NDNHelper.cpp:131-164 | the handler of a TCP announcement over strings is one step of the protocol over items: same table, same Interests in the same order |
| Tunnel.DispatchIsSound | helper/NDNHelper.cpp:25-47 | an announcement reaches only the handler written for its kind, at the gateway registered for its destination, and that handler finds every field it reads |
| Tunnel.AnswerIsSound | helper/NDNHelper.cpp:103-115 | Data only answers a request for its very name, and the handler sends its content to the flow's own destination |
| Tunnel.DataNamesDistinct | helper/LibPcapHelper.cpp:106-136 | captured packets have equal data names only if they are the same capture |
| Tunnel.DealIsThreeSteps | helper/LibPcapHelper.cpp:98-143 | numbering, publishing and announcing, in that order, are together the effect proved of Deal |
| Guessing.TableIsHistory | helper/NDNHelper.cpp:149-164 | a packet is in the guess table exactly when some announcement covered it and the latest one to do so was not its own |
| Guessing.OtherEntriesUntouched | helper/NDNHelper.cpp:149-164 | an announcement changes and requests nothing of other flows, nor of its own flow outside its window |
| Guessing.RequestsInOrder | helper/NDNHelper.cpp:146-163 | an announcement causes the formal request first and then guesses in ascending order |
| Guessing.RequestAccounting | helper/NDNHelper.cpp:147-163 | guesses equal erasures plus one if still in the table, each announcement is one formal request, and requests are at most twice the announcements plus one |
| Guessing.BoundIsReached | helper/NDNHelper.cpp:147-163 | for every number of announcements there is a history that reaches that bound, made of announcements of the packet and its predecessor |
| Guessing.FirstNeverGuessed | helper/NDNHelper.cpp:153-163 | numbers start at 1, so the first packet of a flow is never guessed and is requested once per announcement |
| Guessing.InTableSince | helper/NDNHelper.cpp:149-164 | between its own announcements a packet is in the table exactly if a predecessor at most sixty below arrived since |
| Guessing.SingleAnnouncementCost | helper/NDNHelper.cpp:147-163 | the exact number of requests for a packet announced once: one, plus one if a close predecessor arrived before it, plus one if one arrives after it |
| Guessing.ReorderedThrice | helper/NDNHelper.cpp:147-163 | three announcements, none repeated, can make one packet requested three times |
| Guessing.RequestedIffCovered | helper/NDNHelper.cpp:147-163 | a packet has been requested exactly when an announcement at most sixty before it has arrived |
| Guessing.LossTolerance | helper/NDNHelper.cpp:146-164 | all numbers from the least arrival to sixty past the greatest have been requested exactly when no neighbouring arrivals are more than 61 apart |
| Guessing.InOrderCost | helper/NDNHelper.cpp:146-164 | n announcements in order cost 2n + 59 Interests and leave exactly the next sixty numbers in the table |
| Names.BuildNameWrites | helper/NDNHelper.cpp:240-288 | each kind of name is the URI of its documented components, and the last component is handed back |
| Names.NamesSpelledOut | helper/NDNHelper.cpp:240-320 | the four names and the key spelled out over the address bytes in memory order, ports printed with their bytes exchanged |
| Names.Build4TupleKeyWrites | helper/NDNHelper.cpp:290-320 | the key is the two quads and two ports joined by slashes |
| Names.TcpTranslation | helper/NDNHelper.cpp:131-164 | a TCP announcement translates to the data name of the very packet it announces, its number parses back, and its guess prefix yields the flow's data names |
| Names.OtherTranslation | helper/NDNHelper.cpp:165-180 | the announcement of another protocol translates to its data name |
| Names.TcpDestination | helper/NDNHelper.cpp:107-110 | field 4 of a TCP data name is the flow's destination quad |
| Names.OtherDestination | helper/NDNHelper.cpp:111-112 | field 3 of another data name is the flow's destination quad |
| Names.DestinationIsAddress | helper/RawSocketHelper.cpp:14-20 | the address given to sendto for a flow's destination quad is the destination address its packets carry |
| Names.PreTcpInjective | helper/NDNHelper.cpp:277-280 | TCP announcement names are equal exactly for the same 4-tuple and number |
| Names.DataTcpInjective | helper/NDNHelper.cpp:281-284 | TCP data names are equal exactly for the same 4-tuple and number, double byte swap included |
| Names.DataOtherInjective | helper/NDNHelper.cpp:275-276 | other data names are equal exactly for the same addresses and UUID |
| Names.KindsDisjoint | helper/NDNHelper.cpp:272-287 | no name of one kind is a name of another |
| Names.KeyInjective | helper/NDNHelper.cpp:290-320 | keys are equal exactly for the same 4-tuple |
| Names.KeyMeansSameNameStem | helper/NDNHelper.cpp:281-320 | two packets share a counter exactly when their data names agree up to the number |
| Names.DispatchAnnouncement | helper/NDNHelper.cpp:25-47 | of all filters registered, an announcement matches that of its own kind and destination and no other |
| Names.DispatchRequest | helper/NDNHelper.cpp:25-47 | of all filters registered, a request matches that of its own kind at the gateway of its source and no other |
| Names.AnswerIsExact | helper/NDNHelper.cpp:31-31 | although requests may be answered by longer names, a data name is never a proper prefix of another |
| Text.ValueToString | helper/NDNHelper.cpp:250-269 | reading a printed number gives the number |
| Text.IntToStringInjective | helper/NDNHelper.cpp:278-279 | printed ints are equal only for equal ints, negative ones included |
| Text.LexicalCastToString | helper/NDNHelper.cpp:155-155 | a printed number is cast back exactly when it fits an int |
| Text.LexicalCastIff | helper/NDNHelper.cpp:155-155 | which strings are cast to which int: digits with at most a sign in front, in range |
| Text.SplitJoin | helper/NDNHelper.cpp:133-135 | splitting joined fields gives the fields |
| Text.JoinSplit | helper/NDNHelper.cpp:133-135 | joining split fields gives the string |
| Tables.MapCacheHelper.Save | helper/MapCacheHelper.h:39-45 | inserts only an absent key and never overwrites |
| Tables.MapCacheHelper.Get | helper/MapCacheHelper.h:54-65 | the stored value, or none |
| Tables.MapCacheHelper.Erase | helper/MapCacheHelper.h:73-77 | removes the key and nothing else |
| Tables.MapCacheHelper.GetAndIncreaseSequence | helper/MapCacheHelper.h:95-107 | alone, counts a present key up by one, hands the new number to the tuple, and changes nothing for an absent key |
| Tables.SetHelper.SaveConcurrence | helper/SetHelper.h:35-41 | adds the element and says whether it was new |
| Tables.SetHelper.Find | helper/SetHelper.h:63-70 | membership |
| Tables.SetHelper.Erase | helper/SetHelper.h:78-84 | removes the element and nothing else |
| Gateway.NDNHelper.ExpressInterest | helper/NDNHelper.cpp:210-217 | one Interest with its flags goes out, and the printed 32-bit number counts them all, wrapping around |
| Words.AsIntPeriod | helper/NDNHelper.h:134-134 | the printed number is exact up to 2^31 - 1 and starts again 2^32 further on |
| Gateway.NDNHelper.PutDataToCache | helper/NDNHelper.cpp:329-337 | the first ipSize bytes of the packet are published under the name |
| Gateway.NDNHelper.DealOnData | helper/NDNHelper.cpp:103-115 | the content is sent to the address field of the name, or dropped for a pre Interest |
| Gateway.NDNHelper.DealOnInterest | helper/NDNHelper.cpp:124-182 | the new guess table and the Interests expressed, in order, for every readable name, with the stop after the formal request when the number does not parse; nothing but Interests goes out |
| Gateway.OtherAsked | helper/NDNHelper.cpp:165-180 | an Interest at the filter for other protocols causes exactly one request, with the address fields exchanged, and one at a filter for requests causes nothing |
| Gateway.OtherAskedOnce | helper/NDNHelper.cpp:165-180 | the announcement of another protocol's packet causes one request, for that packet |
| Gateway.TcpAskedFormally | helper/NDNHelper.cpp:131-157 | a TCP announcement causes the formal request first, and nothing else when its number is not an int |
| Gateway.DataSentOnce | helper/NDNHelper.cpp:103-115 | Data of a data name is sent once, to its flow's destination; Data for a "pre" Interest is dropped |
| Gateway.SharedCounter | helper/LibPcapHelper.cpp:92-146 | protocols 6 and 17 share the counter of their 4-tuple, which starts at 1; all others take the UUID and no counter |
| Gateway.LibPcapHelper.Deal | helper/LibPcapHelper.cpp:90-146 | for protocols 6 and 17 the counter, the number given to the tuple and the numbered names; for all others the UUID names and no counter; in either case publication followed by announcement |
| Gateway.LibPcapHelper.HandleRead | helper/LibPcapHelper.cpp:46-61 | deals with packets of fewer than 8600 bytes, whatever their status, and does nothing otherwise; says exactly when more bytes are copied than can be read |
| SequenceRace.Linearizable | helper/MapCacheHelper.h:95-107 | in any interleaving the saves form a sequential history numbering each key from its base value on, each call returns what its own save says, a call that returned before another started precedes it, and calls succeed exactly on keys that were present |
| SequenceRace.EachIndexOnce | helper/MapCacheHelper.h:95-107 | n finished calls on a key holding v returned v+1, ..., v+n, each from exactly one call, and the key holds v+n |
| SequenceRace.OutsideReaderMisses | helper/LibPcapHelper.cpp:96-96 | a get outside the outer mutex misses a key exactly while a call is between its erase and its save |
| SequenceRace.ReaderCanMiss | helper/LibPcapHelper.cpp:96-96 | such a get of a key in use can miss it, in some interleaving, exactly when one of the calls is on that key |
| SequenceRace.MissedAfterErase | helper/MapCacheHelper.h:95-107 | any call on a present key has removed it after its first three steps |
| SequenceRace.SomeThreadCanRun | helper/MapCacheHelper.h:95-107 | no deadlock while a call has not returned |
| SequenceRace.SoloCall | helper/MapCacheHelper.h:39-107 | the steps of an undisturbed call add up to the effect of the sequential method, on present and absent keys |
| SequenceRace.InnerOperations | helper/MapCacheHelper.h:39-77 | in every state the three inner steps are a look-up, a removal and an insertion that never overwrites |
| SequenceRace.EnabledIff | helper/MapCacheHelper.h:95-107 | after any run exactly the calls that have not returned can run, unless another is inside |
| Pool.WakeupsNeverLost | helper/ThreadPool.h:41-82 | while a worker waits every queued task has a wakeup of its own under way; with a worker, a queued task never finds all asleep and no notification to come; after stop nobody waits once notify_all was called |
| Pool.EachTaskOnce | helper/ThreadPool.h:45-96 | tasks are dequeued in the order accepted and run at most once; after the joins all have run exactly when there was a worker or nothing was accepted |
| Pool.EnqueueAccepts | helper/ThreadPool.h:63-84 | in any run enqueue appends the task and owes one notification until the pool is stopped, and changes nothing afterwards |
| Pool.QueueDrains | helper/ThreadPool.h:41-56 | from every state of every run of a pool with workers, their own steps and the notifications due can run all tasks accepted so far |
| Pool.Unscheduled | helper/ThreadPool.h:41-49 | any waiting worker may get a notification or wake without one, and stopping is possible once |
| Pool.NoWorkersDropTasks | helper/ThreadPool.h:73-96 | a pool of no workers accepts a task and is joined without having run it |
| Pool.ShutdownTerminates | helper/ThreadPool.h:87-96 | once stopped only boundedly many steps are left, and until all workers have left one of them is possible |
| Pool.MeasureDrops | helper/ThreadPool.h:41-96 | every step of a stopped pool but a refused enqueue, spurious wakeups included, decreases the remaining work |
| Checksum.InChksumIp | libpcapcapture/packet.cpp:161-179 | the folding loops compute the one's complement checksum of RFC 1071, with the accumulator below 2^31 at each loop head |
| Checksum.ChecksumValue | libpcapcapture/packet.cpp:161-179 | the checksum is 0xFFFF minus the representative of the unbounded word sum modulo 65535, and zero exactly for positive multiples of 65535 |
| Checksum.StoreThenCheck | libpcapcapture/packet.cpp:156-160 | storing the checksum in a zeroed word makes the check come out as zero |
| Checksum.SingleWordChange | libpcapcapture/packet.cpp:156-160 | a change of one word goes unnoticed only between 0 and 0xFFFF |
| Checksum.ByteOrderIndependence | libpcapcapture/packet.cpp:248-250 | byte-swapped words have the byte-swapped checksum, so the zero test in host order agrees with network order |
| Decode.Decoder.Classify | libpcapcapture/packet.cpp:196-272 | the chain of checks arrives at the status described by StatusMeans and CutTransport |
| Decode.ValidIff | libpcapcapture/packet.cpp:208-272 | a packet is valid exactly when type, version and RFC 1071 checksum are right and the claimed IP header, and the TCP header of the claimed length or 8 bytes of UDP or ICMP, lie within the capture, despite the unsigned length |
| Decode.CutTransport | libpcapcapture/packet.cpp:251-272 | the three transport statuses, each exactly for its protocol number with its header cut off, whatever else is wrong |
| Decode.StatusMeans | libpcapcapture/packet.cpp:208-250 | each other status exactly, in the bytes of the frame: checksum before version before IP length before EtherType |
| Decode.NetWordsBytes | libpcapcapture/packet.cpp:161-179 | the words of the RFC 1071 checksum are the header's byte pairs, high byte first |
| Decode.FlowBytes | libpcapcapture/packet.cpp:333-355 | the decoded addresses and ports in the bytes of the frame, ports for protocols 6 and 17 only |
| Decode.ValidHasHeader | libpcapcapture/packet.cpp:248-250 | a valid packet claims at least one header word |
| Decode.Decoder.Decode | libpcapcapture/packet.cpp:181-358 | every counter stays an exact function of the packets seen and, below 2^64, is their number and the sum of the status counters; seq_count and p->seq go up by one exactly for valid packets, and the tuple gets the header's fields |
| Decode.Decoder.ResetStat | libpcapcapture/packet.cpp:398-400 | clears the statistics and keeps seq_count |
| Decode.CountersConserved | libpcapcapture/packet.cpp:197-326 | over any packets since a reset the total is the sum of the status counters (modulo 2^64, and plainly below 2^64 packets), byte totals are exact while they fit, and valid bytes never exceed all bytes |
| Decode.FieldsCount | libpcapcapture/packet.cpp:274-326 | below 2^64 packets each of the twelve status fields is the number of packets with that status |
| Decode.WrapPeriod | libpcapcapture/packet.cpp:197-326 | counters are exact up to 2^64 - 1 and then start again |
| Decode.NamesShowAddresses | libpcapcapture/packet.cpp:333-334 | the quads printed into names are the address bytes of the header in wire order |
| Decode.NamesShowPortsSwapped | libpcapcapture/packet.cpp:341-351 | a printed port, source or destination, is the header's port number exactly when its two bytes are equal |
| Decode.ContentEndsWithCapture | libpcapcapture/packet.cpp:194-235 | the published content ends with the capture for untagged frames and four bytes past it for tagged ones |
| Decode.TaggedFrameMisread | libpcapcapture/packet.cpp:194-351 | a concrete tagged frame is valid, is published with four bytes from behind its capture, and shows port 53764 for 1234 |
| Decode.UntaggedFrameMisread | libpcapcapture/packet.cpp:194-351 | a concrete untagged frame is valid and shows port 53764 for 1234 |
| Capture.ReadFrame | helper/PcapHelper.cpp:135-149 | every frame, whatever its status, is counted and below the limit dealt with under its own header fields; reading past what there is happens exactly for valid tagged frames in a buffer that ends less than four bytes behind the capture and for invalid frames with any byte behind the link header |
| Capture.TaggedFrameOverreads | helper/LibPcapHelper.cpp:51-53 | a concrete valid tagged frame for which it happens |
| Capture.ZeroFrameOverreads | helper/LibPcapHelper.cpp:51-53 | a concrete untagged frame, of zeros, fails its checksum and is read through its null pointer |
| Capture.DestinationShownIff | libpcapcapture/packet.cpp:194-334 | the content of a valid frame, tagged or not, holds the destination its names show exactly when at least 34 bytes were captured |
| Capture.SentWhereHeaderSays | helper/NDNHelper.cpp:107-113 | if all captures are valid frames, tagged or not, in any run a packet is re-injected to the destination written in its own IP header exactly when that header is there in full |
| Capture.ShortFrameValid | libpcapcapture/packet.cpp:232-250 | a valid frame captured to 18 bytes only: the address fields its name is made of lie outside |
| TupleText.RoundTrip | libpcapcapture/packet.cpp:360-396 | reading a printed line restores addresses, ports, protocol and size, for every 64-bit size |
| TupleText.PrintedLine | libpcapcapture/packet.cpp:360-367 | the line spelled out over the address bytes, the size as a signed number |
| TupleText.LinesSplitBack | libpcapcapture/packet.cpp:360-396 | lines printed one after the other split back at the newlines, and each reads back as its record |
| TupleText.ReadTuple | libpcapcapture/packet.cpp:385-396 | on any line stores through the pointer what the conversions that succeed yield, keeps the other fields, and makes up addresses with whatever the octet variables held where a conversion fails |
| TupleText.StoredFully | libpcapcapture/packet.cpp:385-396 | when all twelve conversions succeed nothing of the old record or of the uninitialised octets is left |
| TupleText.CutLine | libpcapcapture/packet.cpp:385-396 | a line cut behind the first port sets source and port and leaves the rest |
| TupleText.AssembleOctets | libpcapcapture/packet.cpp:394-395 | shifting and or-ing four octets gives the address they make up |
| Words.BitOrBits | libpcapcapture/packet.cpp:394-395 | the or of two words has a bit exactly where one of them has it |

## Left out

- Several gateways at once: the tunnel has one capturing and one receiving gateway; traffic the other way is the same system with the roles exchanged.
- Interest lifetimes, timeouts, nacks and cache eviction (helper/NDNHelper.cpp:188-212): timing belongs to the forwarder, and the two callbacks do nothing.
- Signing, the Face, sockets, libpcap and asio: foreign calls; publishing, requesting, delivering and re-injecting are events here.
- Configuration, console output and `main`: plumbing.
- `cacheHelper`, `pendingInterestMap`, `MapCacheHelper::erase(key, T)`, `SetHelper::save`, `NDNHelper::putData`: not used on the live paths.
- Multi-threaded `deal`: the call into the pool is commented out (helper/LibPcapHelper.cpp:55-58).
- The type parameters of `MapCacheHelper` and `SetHelper`: modelled at the instances in use, `int` and `string`.
- Gateway.NDNHelper.ExpressInterest: does not model increments of the printed number that are lost when both threads express at once, because the number is only printed.
- What happens after a read outside of a buffer: C++ leaves it undefined; `HandleRead` and `ReadFrame` report it and promise nothing more.
- The aliasing of the packet pointer with the capture buffer: a tuple holds the bytes readable from its pointer on, which is what `deal` uses before the buffer is reused.
- `report_final_stat_file`, time stamps and `dbl2time`: floating point and output; the report also increments two counters while printing them.
- Branches of `decode` for other link header lengths (libpcapcapture/packet.cpp:218-226): the length is the constant 14 there.
- `util.cpp` comparators and `ttime.cpp`: not part of the gateway's behaviour.
