# dnsmeter: a Dafny model of the load generator's core

dnsmeter sends DNS queries at a configured rate from several threads, through raw sockets, and
measures the answers. This project models the parts of it that compute: the paced sender threads, the
packet with its checksums, the DNSSEC rewriting of queries, the clock hidden in the query ID, the
payload file, the filters of the receiver and its statistics, and the collection of results.

How the files follow the program:

| file | part of the program |
|---|---|
| `Bytes.dfy`, `Arith.dfy` | bytes, words and host byte order; small arithmetic |
| `Checksum.dfy`, `Datagram.dfy`, `Packet.dfy` | `src/packet.cpp`: checksum loop, datagram on the wire, mutable packet |
| `DnsMessage.dfy`, `Query.dfy` | `src/query.cpp`, with a reader of DNS messages as its reference |
| `PayloadFile.dfy` | `src/payload_file.cpp` |
| `Environment.dfy` | clock, stop flag and `src/raw_socket_sender.cpp`, with a record of all that they answer |
| `Trace.dfy`, `SentPackets.dfy` | what a record of answers must look like for the loops and the packets of a thread |
| `Runs.dfy` | what such a record means, in terms of its events alone |
| `Schedule.dfy`, `DnssecSpread.dfy`, `SenderThread.dfy` | `src/dns_sender_thread.cpp` |
| `Workers.dfy` | all sender threads at once, as a state machine over their interleaved steps |
| `PacketFilter.dfy`, `Receiver.dfy` | `src/raw_socket_receiver.cpp`, `src/dns_receiver_thread.cpp` |
| `DnsSender.dfy` | `src/dns_sender.cpp` |
| `EndToEnd.dfy` | statements that need several of these |

Conventions. Objects that the program updates in place are classes here, with the same fields and the
same order of writes; what a method leaves behind is tied to a function or a record value, and the
promises are lemmas about those. The clock, `sendto` and the stop flag may answer anything their
contracts in `Environment.dfy` allow; `Host.trace` records every answer in order, the counters of a
thread are stated over that record, and each loop of a thread is held to `NextCall`, which gives its
next call as a function of the answers so far. The clock is one monotone clock whose readings are at
least a nanosecond apart. Random numbers may be any of their range. Between two packets of one thread,
other threads may move the shared cursor (`OtherThreads`). Timeslice lengths are exact real numbers.
Round-trip times are counted in ticks of 100 microseconds, the unit of the query ID; the program
divides them by 10000. `res_mkquery` is assumed to produce a message with one question, an uncompressed
name and no records (`PlainQuery`).

The host's byte order is a parameter. Packets, checksums, filters and timestamps are right on both
kinds of hosts; the bit-fields of `DNS_HEADER` are not: they name the flags of a DNS header on
little-endian hosts only (`HeaderFields`). What is said below about flags, OPCODE and RCODE holds for
the bits that the host's compiler puts there.

Where the program does not do what one would expect, the model does what the program does, and the
exact condition is proved:

- a computed UDP checksum of zero is sent as zero, although RFC 768 reserves that value; it is sent
  exactly when the source port is the checksum of all other words (`ZeroUdpChecksum`,
  `ZeroUdpChecksumExample`), and a random port can be that one unless it lies in 1..1023
  (`RandomPortForZeroChecksum`);
- `useSourceFromPcap` leaves `chksum_valid` set: a current packet goes stale unless address sum and port
  stay the same in one's complement (`UseSourceFromPcap`, `StaleSource`); the caller has cleared it before;
- nothing keeps `-s pcap` from being used with a text file; then the source address is read from the
  compiled query, past its end if that is shorter than 36 bytes (`SendPacket`, `WithoutSource`), and from
  its letters otherwise (`SourceFromText`). The model ends a run there with `Overread`;
- the bit-fields of the DNS header are declared for little-endian hosts only (`HeaderFields`);
- adding DNSSEC flags to a message that already has additional records destroys it (`AddDnssecKeepsMeaning`);
- the last answer-code bucket is never reset, so a run reports the answers with code 15 of all earlier
  ones (`RcodesAddUp`, `CarryOverRuns`, `CodeOfEarlierRun`);
- a round-trip time of zero ticks makes the minimum forget what came before (`TrueMinimum`, `ForgottenMinimum`);
- frames of 34 and 35 bytes are judged, and frames of up to 45 bytes counted, by what an earlier frame
  left in the buffer (`ShortFrames`, `ShortSamples`);
- the pcap loader reads past the end of captures that are too short for the fields it looks at
  (`LoadAndCompilePcapFile`), and counts packets of any IP protocol as UDP queries (`ProtocolIgnored`);
- of the requested rate, the remainder of its division by the number of threads is not sent (`QuotaOfAllThreads`);
- the larger timeslices all come last, so the schedule lags behind the rate by up to a known bound (`LagBound`);
- the difference of two reports also subtracts the lost queries, and wraps around when more answers than
  queries have come in between (`LostDifference`, `LostWraps`); this figure is not shown.

## Model

| member | source | states |
|---|---|---|
| Checksum.InCksum | src/packet.cpp:40-58 | The loop over host-order words, two folds and a native store leave in memory the big-endian Internet checksum of section 1 of RFC 1071 (end-around carry at every addition), on either host; the 32-bit sum does not overflow for any length up to 65536 |
| Checksum.TwoFoldsSuffice | src/packet.cpp:54-56 | For every value a non-negative int can hold, two folds give the one's complement residue (1..65535, and 0 for 0 alone) |
| Checksum.OnesSumIsCanon | src/packet.cpp:46-53 | Adding with end-around carry at each step equals reducing the plain sum once |
| Checksum.ByteOrderIndependence | src/packet.cpp:40-58 | Section 2(B) of RFC 1071: the sum in host order is the byte swap of the sum in network order |
| Checksum.ChecksumVerifies | src/packet.cpp:54-58 | Which values of the checksum word make a whole message add up to 0xffff: the computed one, and 0xffff besides 0 |
| Checksum.PadIsNeutral | src/packet.cpp:50-53 | An odd message and the same message padded with a zero byte have the same sum |
| Datagram.IpHeaderVerifies | src/packet.cpp:203-204 | The header words with the stored checksum add up to 0xffff |
| Datagram.UdpVerifies | src/packet.cpp:205-206 | Pseudo-header, UDP header and payload with the stored checksum add up to 0xffff |
| Datagram.WireRoundTrip | src/packet.cpp:199-220 | A receiver that checks version, lengths, protocol and both checksums accepts every datagram's wire form and decodes it to the same addresses, ports, ID and payload |
| Datagram.ZeroUdpChecksum | src/packet.cpp:205-206 | The UDP checksum field is zero exactly when the source port equals, in one's complement, the checksum of all other words; 0xffff in its place would verify too |
| Datagram.RandomPortForZeroChecksum | src/packet.cpp:121-126 | Among the ports from 1024 there is one with a zero checksum exactly when the checksum of the other words is at least 1024 or zero |
| Datagram.ZeroUdpChecksumExample | src/packet.cpp:205-206 | The empty datagram from 0.0.0.0 port 65502 to 0.0.0.0 port 0 has it |
| Datagram.SourcePortMatters | src/packet.cpp:144-152 | A changed source port leaves the UDP checksum the same only for the pair 0 and 0xffff |
| Datagram.SourceMatters | src/packet.cpp:144-152 | Another source leaves both checksums as they are exactly when address sum and port are the same in one's complement |
| PacketBuffer.ImageIsWire | src/packet.cpp:199-220 | A buffer with the fixed fields, agreeing lengths and current checksums is, up to its size, the wire form of the datagram it stands for |
| PacketBuffer.SourceUnderCurrentChecksums | src/packet.cpp:144-152 | Writing another source under current checksums keeps the layout, and keeps them current exactly when the sum of the address words and the port are the same in one's complement |
| PacketBuffer.StaleSource | src/packet.cpp:144-152 | From 0.0.0.0 to 10.0.0.1 with any port is a change that makes the IP checksum stale |
| PacketBuffer.Packet.constructor | src/packet.cpp:79-105 | The new packet stands for the empty datagram from and to address 0, port 0 |
| PacketBuffer.Packet.SetSource | src/packet.cpp:112-119 | Changes source address and port of the datagram, nothing else; bytes outside these fields are untouched and the checksums marked stale |
| PacketBuffer.Packet.RandomSourcePort | src/packet.cpp:121-126 | Changes the source port alone |
| PacketBuffer.Packet.RandomSourceIP | src/packet.cpp:137-142 | Changes the source address alone, to the number in network order |
| PacketBuffer.Packet.UseSourceFromPcap | src/packet.cpp:144-152 | Stays within the frame exactly when that has 36 bytes; then it changes the source to the captured one, and the packet is valid afterwards exactly when the flag was clear, or address sum and port are the same in one's complement |
| PacketBuffer.Packet.SetDestination | src/packet.cpp:154-161 | Changes the destination alone |
| PacketBuffer.Packet.SetIpId | src/packet.cpp:163-168 | Changes the IP identification alone |
| PacketBuffer.Packet.SetDnsId | src/packet.cpp:170-174 | Replaces the first two payload bytes, as far as there are any, by the ID in network order |
| PacketBuffer.Packet.SetPayload | src/packet.cpp:176-187 | Takes payloads of up to 4068 bytes, with both length fields following; a longer one is refused with nothing changed |
| PacketBuffer.Packet.UdpCksum | src/packet.cpp:60-77 | The scratch buffer is pseudo-header, header, payload and a zero pad, so the result is the UDP checksum of the datagram |
| PacketBuffer.Packet.UpdateChecksums | src/packet.cpp:199-208 | Both checksums become current; only their four bytes change |
| PacketBuffer.Packet.Ptr | src/packet.cpp:210-220 | The bytes handed out are the wire form of the packet's datagram, and a receiver decodes them to it |
| Bytes.NativeComparison | src/raw_socket_receiver.cpp:389-398 | Comparing a field as loaded by the host with `htons(w)` compares its network-order value with w, on either host |
| DnsMessage.QueryRoundTrip | src/query.cpp:73-87 | For every valid name, type and class, the query that `res_mkquery` is documented to write reads back as its ID, flags and that one question, so plain queries exist for all of them |
| DnsMessage.PlainQueryIsShort | src/query.cpp:62-87 | A message with one question and no records is 17 to 271 bytes long |
| Query.AddDnssecToQuery | src/query.cpp:89-100 | The exact bytes written, header first and record last, for any query size and either layout of the bit-fields; for a full header, the query with AD set, one additional record announced, and the OPT bytes behind it |
| Query.HeaderFields | src/query.h:27-46 | The bit-fields are the QR, OPCODE, TC, AD and RCODE of section 4.1.1 of RFC 1035 and section 6.1 of RFC 2535, for all flag bytes, exactly on little-endian hosts; on big-endian ones an answer can look like a query, and setting AD changes RCODE |
| Query.AddDnssecKeepsMeaning | src/query.cpp:89-100 | For every message that parses: the result parses to the same message with AD set (in the host's layout) and exactly one OPT record with DO set, all bytes used, if it had no additional records, and to nothing otherwise |
| Query.AddDnssecTwice | src/query.cpp:89-100 | A second application leaves no message |
| Query.QueryTimestamp | src/query.cpp:102-109 | The timestamp is the count of 100 microsecond ticks modulo 60000, and 0 when the clock cannot be read |
| Query.RttIsDistance | src/query.cpp:111-118 | For two timestamps, the 16-bit arithmetic gives their distance on the six-second circle |
| Query.ForeignId | src/query.cpp:111-118 | For an ID that is no timestamp, the result looks like a time below six seconds exactly when the ID is at most 60000 ahead of the clock |
| Query.RttRoundTrip | src/query.cpp:102-118 | The time measured is the elapsed ticks modulo 60000: exact, and within 100 microseconds of the truth, exactly when they are fewer than 60000 |
| Payload.MagicBytes | src/payload_file.cpp:50-64 | A file is taken for a capture exactly when it has eight bytes and begins with one of four magic numbers, whichever byte order the program reads them in |
| Payload.KeptConcat | src/payload_file.cpp:130-149 | Loading a capture keeps order: what two stretches keep is what each keeps, one after the other |
| Payload.KeptExactly | src/payload_file.cpp:130-149 | A frame is cached as often as it occurs if it has 45 to 4096 bytes, ethertype 0x0800, version 4, destination port 53 and no QR and OPCODE bits where the host's compiler puts them, and never otherwise |
| Payload.JudgeMeaning | src/payload_file.cpp:130-146 | The loader's conditions, byte by byte: which frames it keeps, and which end before a byte it looks at |
| Payload.KeptOne | src/payload_file.cpp:130-148 | A capture of one frame gives that frame or nothing, by these bytes; with the law on concatenation, this is all of loading a capture |
| Payload.ProtocolIgnored | src/payload_file.cpp:134-146 | Whether a frame is kept does not depend on its IP protocol |
| Payload.CompiledConcat | src/payload_file.cpp:91-116 | Loading a text file keeps the order of its valid lines |
| Payload.CompiledOne | src/payload_file.cpp:98-110 | A text of one line gives its query, or nothing if it is empty, a comment, or does not compile |
| Payload.CompiledExactly | src/payload_file.cpp:91-116 | A query is cached as often as there are lines that are not empty, do not begin with #, and compile to it |
| Payload.GoodIsSized | src/payload_file.cpp:134-148 | Every cached entry has room for what the sender cuts off or adds, and fits into a packet |
| Payload.PayloadFile.LoadAndCompilePcapFile | src/payload_file.cpp:119-156 | The cache grows by exactly the frames that meet the conditions, in order, up to the first that ends before a field that is looked at; it reads past a frame exactly if there is such a one, and throws exactly when the capture cannot be read or nothing is kept |
| Payload.PayloadFile.LoadAndCompile | src/payload_file.cpp:85-117 | The cache grows by exactly the compiled lines that are neither empty, nor comments, nor invalid; throws exactly when there are none |
| Payload.PayloadFile.OpenQueryFile | src/payload_file.cpp:66-83 | For every name and file content: which exception it throws, or that it leaves a non-empty cache of good entries, those of the file as capture or text by its magic number, with the cursor on the first |
| Payload.PayloadFile.GetQuery | src/payload_file.cpp:158-167 | Hands out the entry under the cursor and moves it on, around the end; the cursor stays valid |
| Payload.TurnIsModulo | src/payload_file.cpp:158-167 | The m-th call hands out entry m mod N |
| Payload.Fairness | src/payload_file.cpp:158-167 | After m calls each entry has been handed out m div N times, the first m mod N once more |
| Schedule.QuotaFits | src/dns_sender_thread.cpp:261-269 | The unsigned remainder never goes below zero |
| Schedule.ClosedForm | src/dns_sender_thread.cpp:259-269 | Dividing what is left by the slices that are left gives Q div T queries in each slice and one more in each of the last Q mod T |
| Schedule.ScheduleShape | src/dns_sender_thread.cpp:259-269 | The slices add up to the quota, never shrink and differ by at most one |
| Schedule.LagBound | src/dns_sender_thread.cpp:259-269 | The schedule is never ahead of the proportional line and at most b(T-b)/T queries behind it, b = Q mod T, which it reaches after T-b slices |
| Schedule.RateCap | src/dns_sender_thread.cpp:251-277 | By any time t, a paced run has sent at most the proportional share of the timeslices begun by t |
| DnssecSpread.ExactShare | src/dns_sender_thread.cpp:147-151 | Of the first k queries exactly floor(k r / 100) are flagged, and the accumulator holds k r mod 100 |
| DnssecSpread.WindowShare | src/dns_sender_thread.cpp:147-151 | Every window of w queries holds the floor or the ceiling of w r / 100 |
| DnssecSpread.ThreadsShare | src/dns_sender_thread.cpp:147-151 | Over n accumulators the total is short of the exact share by less than n |
| Environment.RawSocketSender.Send | src/raw_socket_sender.cpp:65-72 | What goes to `sendto` is the wire form of the packet's datagram, once, and the recorded answer is the one passed on |
| SenderThread.DNSSenderThread.SendPacket | src/dns_sender_thread.cpp:135-183 | One call takes the next entry, reads the time once and hands over one datagram, with that entry's payload (flagged when due), stamped with that reading, under an allowed source; the recorded answer moves exactly one of the three outcome counters and its error code. It reads past the entry, and sends nothing, exactly when the source is to come from one of fewer than 36 bytes |
| SenderThread.DNSSenderThread.FillBuffer | src/dns_sender_thread.cpp:140-152 | The buffer holds the entry without its 42 captured header bytes, or the compiled query, flagged exactly when the accumulator says so |
| SenderThread.DNSSenderThread.ChooseSource | src/dns_sender_thread.cpp:154-163 | Source address and port as the spoofing mode allows, or a read past the entry exactly if that is too short; the rest of the datagram unchanged and the checksums still marked stale |
| SenderThread.DNSSenderThread.Transmit | src/dns_sender_thread.cpp:165-176 | The recorded answer of the socket goes into exactly one counter, bytes count only for whole packets, and each error code below 255 into its own bucket |
| SenderThread.PacketRecorded | src/dns_sender_thread.cpp:135-165 | A packet that carries an entry of the cache under the reading before it keeps the whole record good: every packet in it verifies, goes to the target, and is flagged when due after those before it |
| SenderThread.DNSSenderThread.SetTimeslice | src/dns_sender_thread.cpp:100-106 | Rejects zero and more than 1000 ms, and stores seconds |
| SenderThread.DNSSenderThread.RunWithRateLimit | src/dns_sender_thread.cpp:237-290 | Whatever clock, socket and stop flag answer, the calls made are one by one those of `NextCall`, from the two first readings on, and the loop ends when no call is left or a read goes wrong; all packets in the record are good and counted by their answers |
| SenderThread.DNSSenderThread.PacedLoop | src/dns_sender_thread.cpp:259-286 | The same for the loop alone, with the variables it is entered with |
| SenderThread.DNSSenderThread.SendSlice | src/dns_sender_thread.cpp:262-267 | One slice sends its quota and nothing else, or stops within it when a read goes wrong |
| SenderThread.DNSSenderThread.WaitUntil | src/dns_sender_thread.cpp:270-277 | The wait does nothing but read the clock, every reading but the last is before the next timeslice, and the last is not |
| SenderThread.DNSSenderThread.CheckEnd | src/dns_sender_thread.cpp:278-285 | Looks at the flag exactly when a tenth of a second has passed since the last look, and at the time exactly if it is not raised; a raised flag, or a time not before the end, ends the run, and nothing else does |
| SenderThread.DNSSenderThread.RunWithoutRateLimit | src/dns_sender_thread.cpp:210-228 | The calls made are one by one those of `NextCall` without a rate; it ends with time up only on a reading later than start plus runtime, no reading before that is later, and a raised flag is the last event |
| SenderThread.DNSSenderThread.ResetCounters | src/dns_sender_thread.cpp:192-199 | All counters, the accumulator, the duration and the error codes start at zero |
| SenderThread.DNSSenderThread.WaitForTimeout | src/dns_sender_thread.cpp:292-305 | The final wait makes the calls of its rule, and ends on a reading not before the timeout or a raised stop flag |
| SenderThread.DNSSenderThread.Run | src/dns_sender_thread.cpp:185-208 | A run is a reading of the clock, a whole loop with or without rate, another reading that gives the duration, and the final wait; the counters are those of the loop's recorded answers and add up to the packets in it, all of them good |
| SenderThread.AtLeastOneSlice | src/dns_sender_thread.cpp:240-249 | With a timeslice of at most a second there is a slice to divide by |
| Trace.StaysInSchedule | src/dns_sender_thread.cpp:259-277 | At every point of a record that follows the paced rule, the packets out lie between those of the slices that are over and those of one more, exactly at either end when no slice is being sent |
| Trace.ScheduleKept | src/dns_sender_thread.cpp:259-286 | A paced loop leaves exactly the packets of the slices that are over: all of the quota when it completes, a prefix of the schedule when it was told to stop or the time was up, and never more than the quota |
| Trace.NoneTooEarly | src/dns_sender_thread.cpp:251-277 | No packet is handed over before its slice begins |
| Trace.LooksOften | src/dns_sender_thread.cpp:278-285 | While the loop goes on, the flag was last looked at before the end of the runtime and no more than a tenth of a second before the last end of a slice |
| Trace.NoneTooLate | src/dns_sender_thread.cpp:254-285 | No slice begins to send on a reading more than a tenth of a second after the last look at the flag, nor more than that after the end of the runtime |
| Trace.StopEndsLoop | src/dns_sender_thread.cpp:210-286 | In every loop, a flag found raised or a time found to be up is the last event, and a flag not raised is followed by a look at the time |
| Trace.WholeBatches | src/dns_sender_thread.cpp:210-228 | Without a rate, a loop that ends has sent a positive multiple of 10001 packets |
| Trace.TallyIsSends | src/dns_sender_thread.cpp:166-176 | Sent, failed and empty answers together are all packets handed over |
| Trace.TallyMeaning | src/dns_sender_thread.cpp:165-176 | The counters are the numbers of answers for whole packets, with an error, and otherwise, and the sum of the sizes of the whole ones |
| Trace.CodesMeaning | src/dns_sender_thread.cpp:169-172 | Each error code's counter is the number of answers with that error |
| Trace.PacketsMeaning | src/dns_sender_thread.cpp:135-183 | What the other statements count, altogether and up to a time, are the calls of `sendto` in the record |
| SentPackets.EveryPacket | src/dns_sender_thread.cpp:135-165 | Directly before each packet of a good record the time was read; the packet verifies and carries an entry under that time, flagged when due after as many packets as there were |
| Runs.PacedEnds | src/dns_sender_thread.cpp:259-286 | A paced loop completes only with all packets out, and is ended otherwise only by a raised flag or a reading of the time that is not before start plus runtime, each of them its last event; the time is read after every look at a flag that is not raised and at no other time |
| Runs.WaitsEnd | src/dns_sender_thread.cpp:259-277 | For any number k of packets, and any time by which all slices that end with k packets are over: no more readings are made with k packets out at that time or later than there are such slices. So no slice waits on after its end, and none before or between its packets |
| Runs.WaitGoesOn | src/dns_sender_thread.cpp:270-277 | Where no slice is empty: of two readings that follow each other after the packets of z slices, the first is before start + z slices |
| Runs.LooksApart | src/dns_sender_thread.cpp:278-281 | Two looks at the stop flag are more than a tenth of a second apart, the first that much after the start, each on the reading before it |
| Runs.LooksInTime | src/dns_sender_thread.cpp:278-285 | No packet leaves after a reading more than a tenth of a second later than the start and all looks at the flag so far, nor more than that after start plus runtime |
| Runs.UnpacedEnds | src/dns_sender_thread.cpp:210-228 | Without a rate, the loop ends only with a raised flag or a reading later than start plus runtime, each its last event; it looks at the flag after every 10001 packets and not between, and at the time after that |
| Runs.WaitIsOver | src/dns_sender_thread.cpp:292-305 | The final wait ends with a raised flag or a reading not before start plus timeout, and with nothing else |
| Runs.WaitLooks | src/dns_sender_thread.cpp:292-304 | It looks at the flag after exactly those readings that are more than a tenth of a second later than its start and all looks before |
| Workers.RunInv | src/dns_sender_thread.cpp:237-286 | In every state of every interleaving each worker is where its schedule says, the shared cursor is where the number of calls says, and every call has its entry |
| Workers.QuotaConservation | src/dns_sender_thread.cpp:259-286 | The sent, failed and empty packets of all threads never exceed the sum of their quotas, and equal it when all are through without an early stop |
| Workers.RunsAreBounded | src/dns_sender_thread.cpp:259-286 | No interleaving is longer than two steps for each slice and query of each thread |
| Workers.NoDeadlock | src/dns_sender_thread.cpp:259-286 | A thread that is not through always has a step to take, whatever the others do |
| Workers.CompletedRun | src/dns_sender_thread.cpp:259-286 | A run that cannot be continued, with no thread told to stop, has sent exactly every quota |
| Workers.FairInterleaving | src/payload_file.cpp:158-167 | However the threads interleave, entries are handed out evenly; calls and finished packets differ by at most one a thread |
| Workers.DnssecShare | src/dns_sender_thread.cpp:147-151 | In every reachable state the flagged share of all threads' queries is the configured percentage, short by less than one query a thread |
| Workers.GatheredBetween | src/dns_sender.cpp:467-479 | Counters read one by one while the threads run add up to something between the true totals when the reading began and ended, and so within the quota |
| PacketFilter.BpfMeaning | src/raw_socket_receiver.cpp:254-279 | The ten-instruction program, run with its relative jumps, ends on every frame and accepts exactly by ethertype, source address, protocol 17 and source port |
| PacketFilter.FiltersAgree | src/raw_socket_receiver.cpp:380-401 | On frames of at least 36 bytes it accepts, for version 4, exactly when the Linux checks accept and the protocol is 17 |
| PacketFilter.ShortFrames | src/raw_socket_receiver.cpp:383-399 | The Linux decision depends on the frame alone exactly for frames that are long enough or turned away before the port is looked at |
| Receiver.SumIsTrue | src/raw_socket_receiver.cpp:306-320 | Packets, bytes, total time and truncated answers are the number of samples, the sums of their sizes and times, and the number of those with TC |
| Receiver.MaximumIsTrue | src/raw_socket_receiver.cpp:315-316 | The reported maximum is one of the samples and none is larger |
| Receiver.RcodesAreTrue | src/raw_socket_receiver.cpp:317-318 | Every bucket holds the answers with its code, the last also what it held before; together they hold all packets and that remainder |
| Receiver.RcodesAddUp | src/raw_socket_receiver.cpp:141-151 | The buckets add up to the packets exactly when the last one was empty before the run |
| Receiver.CarryOverRuns | src/raw_socket_receiver.cpp:141-151 | Over any series of runs, the last bucket is what it held first and all answers with code 15 since |
| Receiver.RcodesOfLaterRun | src/raw_socket_receiver.cpp:141-151 | The codes a run reports add up to its packets exactly when the counter's memory was clear and no earlier answer had code 15 |
| Receiver.CodeOfEarlierRun | src/raw_socket_receiver.cpp:141-151 | After a run with one such answer, a run without any answer reports one |
| Receiver.MinimumSinceZero | src/raw_socket_receiver.cpp:313-314 | The reported minimum is that of the samples after the last zero, and zero if there are none |
| Receiver.TrueMinimum | src/raw_socket_receiver.cpp:313-314 | It is the minimum of all samples exactly when none is zero or the last is |
| Receiver.ForgottenMinimum | src/raw_socket_receiver.cpp:313-314 | The samples 0 and 5 are reported with minimum 5 |
| Receiver.AverageBetween | src/dns_receiver_thread.cpp:70-75 | Without zero samples the average lies between minimum and maximum |
| Receiver.ShortSamples | src/raw_socket_receiver.cpp:300-320 | What is counted for a frame depends on the frame alone exactly from 46 bytes on |
| Receiver.Counter.constructor | src/raw_socket_receiver.cpp:129-139 | All is zero but the last bucket, which is whatever was in memory |
| Receiver.Counter.Clear | src/raw_socket_receiver.cpp:141-151 | All becomes zero but the last bucket, which stays |
| Receiver.Counter.CountPacket | src/raw_socket_receiver.cpp:306-321 | The counter's value becomes that of one more sample read from the frame's DNS header, with the bit-fields of the host |
| Receiver.RawSocketReceiver.Receive | src/raw_socket_receiver.cpp:380-401 | One frame is laid over the old buffer contents and counted exactly when the checks accept it |
| Receiver.RawSocketReceiver.Run | src/dns_receiver_thread.cpp:44-53 | Over any sequence of frames, the statistics are those of the accepted ones after a clear |
| Sender.RejectedRates | src/dns_sender.cpp:417-440 | The timeslice is rejected exactly for positive rates below one query per thread, where the per-thread rate would be zero and mean unlimited |
| Sender.SlicesPerRun | src/dns_sender.cpp:417-423 | The number of timeslices is runtime q div n, or 10000 a second beyond 10000 queries per second and thread |
| Sender.OneOrNone | src/dns_sender.cpp:437-441 | Without the clamp each slice sends one query or none, the empty ones are fewer than the seconds and all at the start |
| Sender.QuotaOfAllThreads | src/dns_sender.cpp:437-441 | The threads' quotas fall short of rate times runtime by runtime (q mod n), so by nothing exactly when n divides q |
| Sender.ShownAddsUp | src/dns_sender.cpp:398-415 | What the periodic report shows as sent and received adds up to the last totals, with nothing shown twice or left out; of the data in both directions less than a kilobyte is lost in each report |
| Sender.LostDifference | src/dns_sender.cpp:121-146 | The difference of the lost queries of two reports is the difference of the two numbers, not wrapped around, exactly when none were lost before or no more answers than queries have come since |
| Sender.LostWraps | src/dns_sender.cpp:121-146 | One late answer between two reports makes it 2^64 - 1 |
| Sender.DNSSender.CalcTimeslice | src/dns_sender.cpp:417-423 | The timeslice in milliseconds, at least a tenth |
| Sender.DNSSender.ConfigureThreads | src/dns_sender.cpp:425-442 | Succeeds exactly for rate zero or at least one query per thread; then every thread has its share and the timeslice |
| Sender.DNSSender.GetResults | src/dns_sender.cpp:467-499 | Each total is the sum over the threads, the three outcomes together the sum of all calls, the lost packets never negative, and the receiver's figures are passed on |
| Sender.SumsOfThreads | src/dns_sender.cpp:467-476 | The four sums are those of what the threads hold, each in its own place |
| Sender.SumOfCodes | src/dns_sender.cpp:477-479 | So are the sums of the error codes |
| Sender.DNSSender.ShowCurrentStats | src/dns_sender.cpp:398-415 | Shows the four figures of the difference to the report before, and remembers the sums over the threads and the receiver's figures, all of them |
| EndToEnd.StampKeepsMeaning | src/packet.cpp:170-174 | Stamping an ID into a message changes its ID and nothing else |
| EndToEnd.TextQueryOnTheWire | src/dns_sender_thread.cpp:140-164 | The payload made from a compiled query parses to that query with the timestamp as ID and, when flagged, AD and one OPT record |
| EndToEnd.GoodPacketIsQuery | src/dns_sender_thread.cpp:135-165 | Every packet of a run over a text file reaches the receiver as the query of a line of that file, flagged when due, with the time read before it as ID |
| EndToEnd.OptShare | src/dns_sender_thread.cpp:147-151 | The packets recorded in a run over a text file that carry an OPT record for DNSSEC (version 0, 4096 bytes, DO and nothing else) are exactly the configured percentage of all, rounded down |
| EndToEnd.CarriedCapture | src/dns_sender_thread.cpp:133-144 | A packet made from a captured frame carries the bytes behind its 14, 20 and 8 header bytes, with the time of sending in the first two; a DNS message there is received as that message with that ID; a captured source is the one of the captured IP and UDP headers |
| EndToEnd.GoodPacketIsCapture | src/dns_sender_thread.cpp:135-165 | Every packet of a run over a capture reaches the receiver as the DNS message of a frame in the cache, with the time read before it as ID |
| EndToEnd.PlayedBack | src/dns_sender_thread.cpp:133-164 | A captured datagram played back with its own source differs from what was captured in destination, IP identification and DNS ID alone |
| EndToEnd.FromAndTo | src/dns_sender_thread.cpp:154-163 | Every packet goes to the target, and comes from the configured address, an address of the network, or where the entry says |
| EndToEnd.WithoutSource | src/packet.cpp:144-152 | Any query for the root name is a plain query of 17 bytes, so its source would be read past its end |
| EndToEnd.SourceFromText | src/packet.cpp:144-152 | For a name that begins with a label of 23 letters or more, the source address is letters 14 to 17 and the port letters 22 and 23 of it |
| EndToEnd.MeasuredTime | src/raw_socket_receiver.cpp:300-321 | An answer from the target with 46 bytes or more that repeats the stamped ID is accepted and adds exactly one sample, of its size (4096 at most), with the ticks since the stamp modulo six seconds, its own code and flag, whatever was received before |
| EndToEnd.OtherFrame | src/raw_socket_receiver.cpp:380-401 | Any other frame of 36 bytes or more changes nothing |
| EndToEnd.SentIsTrue | src/dns_sender.cpp:467-479 | The results report, over all threads, the numbers of whole packets, errors, other answers and single error codes that the sockets gave, and the bytes of the whole packets |
| EndToEnd.ReceivedIsTrue | src/dns_sender.cpp:480-499 | And the number, bytes, times, maximum, codes and truncations of the answers counted, and as lost the whole packets without one |
| EndToEnd.AverageIsTrue | src/dns_sender.cpp:485-488 | The average is the sum of the times over the number of answers, zero without answers |
| EndToEnd.WholeRun | src/dns_sender.cpp:437-479 | In every state of every interleaving all threads together have sent at most rate times runtime; at an undisturbed end they are short of it by runtime (q mod n) |
| EndToEnd.NeverAhead | src/dns_sender_thread.cpp:237-286 | A paced run, as `Run` leaves its record, has handed over nothing before its start, at any time at most the share of its quota that the timeslices begun allow, and never more than the quota |
| EndToEnd.AllNeverAhead | src/dns_sender.cpp:417-442 | By any time t all threads together have handed over at most rate times the time since the first began, and one packet for each thread (or those of a tenth of a millisecond, when the timeslices are clamped to that), and never more than rate times runtime |

## Left out

- SenderThread.DNSSenderThread.SendPacket: does not fix the random source, which may be any address of the network and any port from 1024; what a read past an entry yields is undefined, and the model ends the run there.
- SenderThread.DNSSenderThread.RunWithRateLimit: takes the number of timeslices as a parameter, because the program computes it with rounded floating-point numbers; `SlicesPerRun` gives its exact value.
- Workers.RunInv: the interleaved threads take no part in reads that go wrong; they are those of runs with sources that can be read.
- Sender.DNSSender.GetResults: has no query-rate field, which the program sets to zero there; counters are unbounded, since 64 bits are not reached.
- Payload.PayloadFile.OpenQueryFile: takes what libpcap, the line reader and `MakeQuery` make of their inputs as parameters (`Readers`).
- Receiver.Counter.CountPacket: counts ticks, without the division by 10000 and the rounding of doubles.
- Sender.SlicesPerRun: is stated over exact numbers; the program rounds the timeslice to a float.
- Sockets, device setup, `select` and the FreeBSD buffer walk: system interfaces whose record layouts are not in the repository.
- `MakeQuery` and the record-type table: a lookup around `res_mkquery`; its results are taken to be plain queries.
- `setPayloadDNSQuery` and `randomSourceIP` for a network object: not called by the program.
- System statistics, command line, printing, CSV output and signals: input and output.
- Data races on the counters: reads and writes of one counter are taken to be atomic.
