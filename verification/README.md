# Verified model of the gigaboot network loader

The loader boots a machine over the network. A host program (`src/nbserver.c`) sends a kernel
file in 1024-byte blocks with a stop-and-wait protocol; the target (`src/netboot.c`) stores the
blocks, acknowledges them and, on a boot request, starts the kernel. Below the protocol lies a
minimal IPv6/UDP/ICMPv6 stack (`src/inet6.c`) on a pool of transmit buffers (`src/netifc.c`);
above it the memory map is translated and the zero page filled for the kernel (`src/osboot.c`).

What is proved, in the system's own terms:

- **Boot safety.** Over a channel that loses datagrams but keeps their order, in every run of
  any number of completed or aborted transfers, a message that makes the target boot finds the
  kernel buffer holding exactly the file. Over a channel that also reorders and repeats, this
  holds if and only if the file is empty or does not fit the buffer; every other file has a run,
  constructed in the proof, that boots an incomplete kernel.
- **Prefix and ack invariants.** Whatever the channel does, the buffer holds a prefix of the file,
  and an acknowledged block was stored at its offset in an earlier step. Over the ordered channel
  the write pointer is exactly behind the acknowledged block.
- **Retransmission.** A request is written once more after every timeout but the fifth. A call
  survives the loss of up to four copies of its request, and of its ack unless it is that of the
  first block; every file that fits can be booted although each of its requests loses as many.
- **Three files.** It is proved from the bytes of a request which of the three buffers it opens;
  every upload ends up in that very buffer and leaves the other two alone.
- **The resend guard** is modelled as written: it assigns `last_arg`, so it never fires for
  argument 0. Repeating a message is harmless except for the first stored block, which is
  acknowledged only once; losing that ack makes the transfer give up, and every file that fits has
  a run in which it can be lost.
- **Checksums** are the one's-complement sums of RFC 1071 over the pseudo-header of section 8.1 of
  RFC 8200, independent of byte order; a sent frame is delivered with its payload, and a changed
  word is detected. For every buffer and length it is proved, both ways and by byte position, which
  frames are cached, delivered and answered.
- **ICMPv6.** Echo requests and solicitations are answered as they should be. For messages below
  4 bytes, which the source neither rejects nor checks properly, it is proved exactly when the
  rewriting of a 0xFFFF checksum changes the verdict and exactly which answers pass a receiver.
- **Buffers** are conserved over every run of sends and completions, on the real linked list;
  pushing a buffer twice closes it to a circle.
- **The E820 table** means what the memory map means, and for a sorted map it is the one canonical
  table with that meaning; the kernel decodes that meaning from the finished zero page.
- **Text output**: printed IPv6 addresses parse back by section 2.2 of RFC 4291, and the console
  shows the printed text exactly when it holds no NUL.

## Files

| file | content |
|---|---|
| `Bytes.dfy` | integers of fixed width, byte order, memory copies |
| `NbMessage.dfy`, `Target.dfy`, `Host.dfy` | protocol messages; both sides as step functions |
| `Upload.dfy` | which file a name opens, the answer to every message, uploads of each file |
| `NetbootTarget.dfy`, `NbServer.dfy` | both sides as the source writes them, proved against the step functions |
| `Network.dfy`, `Reordering.dfy` | the system over a channel that loses, repeats and reorders |
| `Fifo.dfy`, `Transfers.dfy` | the system over the order-preserving channel; whole transfers |
| `Checksum.dfy`, `Inet6.dfy`, `Icmp6.dfy`, `Inet6Stack.dfy` | checksum; meaning of frames; ICMPv6 answers; the stack working in place |
| `AckPath.dfy` | an acknowledgement's way from received frame to delivered answer |
| `BufferPool.dfy`, `NetIfc.dfy` | pool ownership over runs; the intrusive free list |
| `E820.dfy`, `E820Meaning.dfy`, `ZeroPage.dfy`, `BootMap.dfy` | memory map translation, its meaning, the zero page, what the kernel reads there |
| `Ip6Text.dfy`, `Console.dfy` | address printer against a parser; console writer |

`dafny verify dfyconfig.toml` checks everything.

## How the model reads the source

- A run is an initial state and a list of step labels; every state machine is a total function of
  state and label, guarded by an enabling predicate. Outcomes of system and firmware calls are
  labels or parameters.
- The reordering channel is the set of all datagrams ever sent: any of them may arrive at any time.
  The ordered channel has a queue each way from which any element may vanish. Its runs are proved
  to be runs of the reordering channel.
- `netboot_poll` handles at most one datagram, so a delivery and the poll around it are one step.
- The receive buffer has 1514 bytes; bytes behind the frame are arbitrary and the model reads them
  where the source does.
- Where code and comments disagree the code is followed: the guard at `src/netboot.c:51` assigns
  although the comment below it speaks of a resend in general; `NB_DATA` carries a byte offset, not
  the block number of `src/netboot.h:24`; the link-local prefix is FE80, not the FF80 of
  `src/inet6.c:43`; the carriage return comes before the newline, not after it as in
  `lib/console-printf.c:22-23`.

## Model

| member | source | states |
|---|---|---|
| Target.HandleFrame | src/netboot.c:69-100 | handling any message changes the contents of a buffer only if it is the one being filled and the message is stored, changes a write pointer only then or when the message opens that file, and never changes a buffer's size |
| Target.ResendIdempotence | src/netboot.c:50-121 | handling any message twice in a row leaves the files as once; the second answer equals the first if and only if the message was not the stored, non-empty block at offset 0, which gets no second answer |
| NbMessage.ParseEncode | src/netboot.h:37-43 | a datagram made from a message parses back to that message, for every message |
| NbMessage.WireFormat | src/netboot.h:37-43 | the words of a message stand in its datagram at bytes 0, 4, 8 and 12, lowest byte first, and its data from byte 16 on |
| Upload.OpensExactly | src/netboot.c:72-78 | from the bytes a request carries, both ways: the kernel is opened by its name and one more byte, ramdisk and command line by their names and at least one more, unprintable bytes passing for the dot, and nothing by any other bytes |
| Upload.OpenAnswer | src/netboot.c:78-85 | a request that names a file empties that file and makes it current, keeping all other files, or makes none current |
| Upload.Answers | src/netboot.c:46-120 | the answer to every message by its command, the unknown and the empty ones included, when it resends, and what is remembered of it |
| Upload.BlockAnswer | src/netboot.c:87-100 | a block at the write pointer is refused with its offset if it does not fit, and else found there byte for byte with the rest of the buffer unchanged |
| Upload.EveryUpload | src/netboot.c:69-100 | for each of the three files and every run of requests for it, repeated and reordered at will, its buffer holds a prefix of the content and the other two are untouched |
| Upload.UploadStores | src/netboot.c:69-100 | for each of the three files and any state before, opening it by name and sending its blocks in order leaves exactly the content in its buffer, and all other bytes as they were |
| NetbootTarget.NbBuffer.Append | src/netboot.c:96-97 | the block is copied to the write pointer, which moves behind it; the rest of the buffer is unchanged |
| NetbootTarget.CleanName | src/netboot.c:72-77 | the name in the receive buffer becomes NUL-terminated with unprintable bytes as dots |
| NetbootTarget.CompareStopsAtName | src/osboot.c:402-415 | comparing past the end of a NUL-terminated name gives the verdict of comparing the name alone |
| NetbootTarget.Netboot.GetBuffer | src/osboot.c:402-415 | returns the kernel, ramdisk or command-line buffer exactly for the bytes "kernel.bin" with NUL, "ramdisk.bin" and "cmdline", which is the file the name alone selects, whatever bytes follow it |
| NetbootTarget.Netboot.SendFile | src/netboot.c:69-86 | opens exactly the file that the received bytes spell, with its write pointer at 0, or clears the current file and answers bad-file |
| NetbootTarget.Netboot.Data | src/netboot.c:87-100 | stores, refuses as too large, or drops the block exactly as the protocol step says, leaving the state alone when it drops |
| NetbootTarget.Netboot.Switch | src/netboot.c:63-108 | every command, the unknown ones included, has the effect and the answer of the protocol step |
| NetbootTarget.Netboot.ResendGuard | src/netboot.c:50-51 | resends exactly for the same cookie and command with a non-zero argument, and overwrites the remembered argument whenever the first two agree |
| NetbootTarget.Netboot.Udp6Recv | src/netboot.c:34-121 | for every datagram and port the new state and the answer are those of the protocol step; short datagrams and other ports do nothing |
| NetbootTarget.Netboot.Tick | src/netboot.c:155-183 | advertises on coming online and on an expired timer unless a transfer was active, and counts down the fast ticks |
| NetbootTarget.Netboot.Poll | src/netboot.c:154-193 | while the interface is up, reports a boot exactly when a request was pending or the received datagram made one, and leaves none pending; while it is down, does nothing |
| Host.RetryBound | src/nbserver.c:34-86 | for every sequence of socket outcomes: at most five datagrams written, at most ten steps plus one per blocked write and per datagram that is not the ack, success exactly when the ack of this call is read, failure exactly on a socket error or the fifth timeout |
| Host.Retransmission | src/nbserver.c:41-62 | for every sequence of socket outcomes: each timeout but the one that ends the call is followed by a write, nothing else is once a copy was written, and while io waits for an answer there is one more copy than there were timeouts |
| NbServer.NbServer.IsAck | src/nbserver.c:65-84 | accepts a datagram exactly if its bytes are the magic, this cookie, the command 0 and this argument |
| NbServer.NbServer.Await | src/nbserver.c:50-84 | from the label on, reads until an ack, a timeout or an error, as a run of the call |
| NbServer.NbServer.Io | src/nbserver.c:34-86 | returns whenever only finitely many writes block and finitely many datagrams are not the ack; its system calls form a run of the call that ends as returned, and the cookie advances with 32-bit wrap |
| NbServer.NbServer.Xfer | src/nbserver.c:116-153 | for every file and environment: the steps are those that fread and the socket force, from the opening request to the first return; it booted if and only if the boot request was acknowledged, if and only if it never gave up; the acknowledged blocks are a prefix of the file, all of it when it booted; and if every request is acknowledged the datagrams written are, each once, the opening request, every block of 1024 bytes or what fread yields at the end or on an error, and the boot request unless a read failed |
| Network.HandleSendFile | src/netboot.c:69-81 | the request that opens the kernel file always empties it, is acknowledged and never boots |
| Network.HandleDataStored | src/netboot.c:87-99 | storing the next block of the file extends the stored prefix by that block |
| Network.HandleDataRefused | src/netboot.c:50-58 | a block that is not stored changes no file; it is dropped, answered with the remembered ack of the same call, or refused as too large |
| Reordering.StepInv | src/nbserver.c:88-153 | every step of host, channel and target keeps the invariant: legitimate messages, one per cookie, acks only for stored blocks, buffer a prefix of the file, position never beyond the buffer |
| Reordering.PrefixInEveryRun | src/netboot.c:87-99 | in every run over loss, repetition and reordering the kernel buffer holds a prefix of the file and the other buffers are unchanged |
| Reordering.AckedBlockWasStored | src/nbserver.c:73-84 | in every run, when io is about to return 0 for a block, an earlier step of the run stored that block at that offset |
| Reordering.OldAcksIgnored | src/nbserver.c:73-76 | in every run, nothing the target sent before a call of io began is accepted as its ack |
| Fifo.AckMeansOffset | src/nbserver.c:81-82 | in every state that satisfies the invariant, an ack at the head of the queue means the target's last call is this one, its write pointer is behind the block and all queued requests are copies of it |
| Fifo.FifoStepInv | src/nbserver.c:116-153 | every step over the order-preserving channel, losses included, keeps cookies in order, host and target in step, and boot requests behind a complete file |
| Fifo.BootSafety | src/netboot.c:101-104 | in every run over the order-preserving lossy channel, a received message that boots finds offset equal to the file length and the buffer equal to the file |
| Transfers.FifoRefinesReordering | src/nbserver.c:116-153 | every run over the order-preserving channel is a run over the reordering channel with the same final state |
| Transfers.LostFirstAckAborts | src/nbserver.c:140-143 | in every run, once the only ack of the first block is lost, xfer stays in that call until it gives up |
| Transfers.FirstAckInFlight | src/nbserver.c:140-143 | every file that is not empty and fits has a run after which exactly that ack is in flight |
| Transfers.FirstBlockSent | src/netboot.c:50-51 | every such file has a run after which the target is about to store the block whose repetition it will not answer |
| Transfers.AckedOffsetInEveryRun | src/nbserver.c:140-144 | in every run over the order-preserving channel, when io is about to return 0 the write pointer is exactly behind the block, which is in the buffer, whatever copies are queued |
| Transfers.CanBoot | src/nbserver.c:116-153 | for every file that fits the buffer and every k below 5, a run that loses k copies of each request brings the boot request to a target holding the whole file |
| Transfers.CallSurvives | src/nbserver.c:41-62 | from every reachable state with an empty channel, a request the target acknowledges is acknowledged although as many copies as retries less one are lost |
| Transfers.LostAckRecovered | src/netboot.c:50-58 | from every such state, a request whose ack is lost is acknowledged after all, unless it stored the first block |
| Transfers.LateReopen | src/netboot.c:78-81 | for every non-empty file that fits, a run in which a late copy of the opening request makes the target boot an incomplete kernel |
| Transfers.ReorderingBootSafety | src/netboot.c:78-81 | over the reordering channel no run boots an incomplete kernel if and only if the file is empty or larger than the buffer |
| Checksum.Checksum | src/inet6.c:141-155 | the 32-bit accumulator never overflows for up to 65536 words, the loop ends, and the result is the RFC 1071 sum with end-around carry |
| Checksum.Fold | src/inet6.c:151-154 | folding the carries terminates in the 16-bit one's-complement form of the sum |
| Checksum.OnesSumIsRep | src/inet6.c:141-155 | adding with end-around carry word by word equals reducing the plain sum once at the end |
| Checksum.OnesSumMeaning | src/inet6.c:141-155 | the result is congruent to the sum modulo 65535 and zero exactly for a zero start and all-zero data |
| Checksum.Chaining | src/inet6.c:172-176 | a region split at an even offset may be summed in two chained calls |
| Checksum.ByteOrderIndependence | src/inet6.h:110-112 | swapping the little-endian sum gives the network-order sum, for every input, odd lengths included (section 2(B) of RFC 1071) |
| Checksum.TwoCallsArePseudoSum | src/inet6.c:173-176 | the two calls compute the sum over the pseudo-header of section 8.1 of RFC 8200 and the payload |
| Inet6.CompletedSum | src/inet6.c:178-183 | the checksum written is never zero and makes the whole sum congruent to zero |
| Inet6.RewriteKeepsVerdict | src/inet6.c:267-275 | for every buffer and length: rewriting a received 0xFFFF to 0 keeps the verdict if and only if the body does not end within the field, or the sum is wrong either way |
| Inet6.BufferVerdict | src/inet6.c:293-301 | for every buffer and length the receivers' test, rewriting included, passes exactly when the sum of what is in the buffer is 0 modulo 65535, or 0xFF if the body ends within a field of 0xFFFF |
| Inet6.FrameFields | src/inet6.c:186-207 | a receiver finds in a built frame the MAC addresses, type, version, length, next header, hop limit 255, addresses and body that were put in |
| Inet6.UdpRoundTrip | src/inet6.c:211-235 | for every payload up to the maximum, a sent frame with any padding delivers exactly payload, addresses and ports to the stack owning the unicast or solicited-node address, and its checksum is not 0 |
| Inet6.ErrorDetection | src/inet6.c:261-287 | changing one aligned word of the UDP header or payload of a delivered frame to a value not congruent modulo 65535 prevents delivery |
| Inet6.AcceptanceIsSound | src/inet6.c:340-389 | only an IPv6 frame to this stack whose length fits touches the reply cache, which then holds its sender; of these only a UDP segment with a right sum and fitting length is delivered, as the bytes behind its header, and only an ICMPv6 message of any length with the residue of the verdict is answered |
| Inet6.CachedExactly | src/inet6.c:350-381 | for every buffer and length: a frame leaves its sender in the reply cache if and only if it is 86DD, of version 6 with any traffic class and flow label, long enough and to this stack |
| Inet6.DeliveredExactly | src/inet6.c:261-287 | for every buffer and length, both ways: which admitted frames are delivered as UDP, with payload, addresses and ports by byte position |
| Inet6.AnsweredExactly | src/inet6.c:289-338 | for every buffer and length, both ways: which admitted frames are answered as echo requests or solicitations |
| Inet6.ReplyRouting | src/inet6.c:121-139 | during receive dispatch the sender's address resolves, to the frame's source MAC or the multicast mapping, and every answer fits a frame |
| Icmp6.SendVerdict | src/inet6.c:239-259 | a message of any length, sent with a zeroed checksum field, passes the tests icmp6_recv makes on the arriving frame if and only if the field read there is not zero and it has 4 bytes, or 3 and a checksum below 256, or the cut-off checksum was not needed |
| Icmp6.RepliesAreValid | src/inet6.c:303-335 | an echo reply repeats the request apart from type and checksum, a solicitation gets an advertisement of the solicited target with this stack's MAC, and every reply fits a frame with its checksum field zeroed |
| Icmp6.ReplyVerdict | src/inet6.c:303-335 | every answer of 4 bytes or more passes the receiver's test as it arrives, and a shorter one exactly under the condition on its checksum |
| Icmp6.ShortEchoVerdict | src/inet6.c:330-335 | for an answered echo request below 4 bytes to the stack's own address, in terms of the request: the reply to an empty one passes if the field read is not zero, to 1 or 2 bytes never, to 3 bytes exactly for a checksum byte of 2 or more that was not rewritten, or of 1 before a 0xFF |
| Icmp6.RewritingMatters | src/inet6.c:293-301 | every stack answers some 3-byte message that would fail without the rewriting |
| Icmp6.ShortReplyFails | src/inet6.c:330-335 | every stack answers some 1-byte echo request with a reply that fails whatever follows it |
| Icmp6.EchoRoundTrip | src/inet6.c:330-335 | an echo request built by icmp6_send, with any padding, is answered by the stack that owns the address with the same bytes as a reply, to the sender |
| Icmp6.SolicitationAnswered | src/inet6.c:303-327 | a solicitation of a stack's address built by icmp6_send is answered with the advertisement of that address and MAC, to the sender |
| Inet6Stack.PacketSum | src/inet6.c:173-176 | the two calls on a packet in memory compute the pseudo-header sum of its addresses, length and body |
| Inet6.Reachability | src/inet6.c:99-139 | link-local addresses tell MACs apart; the solicited-node address shares its last 24 bits and resolves at every stack to the MAC of the filter set for it; the link-local address resolves exactly at the stacks that last heard from it |
| Inet6.AddressBytes | src/inet6.c:45-75 | the link-local address is FE80::/64 with the EUI-64 identifier of the MAC, bit 1 flipped, and the solicited-node address is FF02::1:FF00:0/104 with its last 24 bits |
| Inet6Stack.Inet6Stack.Headers | src/inet6.c:192-204 | both headers are written in place, from byte 2 of the buffer, with the fields of the frame |
| Inet6Stack.Inet6Stack.Ip6Checksum | src/inet6.c:170-184 | the value for the checksum field, computed from the packet in memory |
| Inet6Stack.Inet6Stack.BuildUdp | src/inet6.c:219-229 | the buffer holds exactly the frame whose reception is proved, with all writes inside its 1516 bytes |
| Inet6Stack.Inet6Stack.BuildIcmp | src/inet6.c:248-253 | the same for ICMPv6 messages of any length, including those too short for a checksum field |
| Inet6Stack.Inet6Stack.Udp6Send | src/inet6.c:211-235 | returns 0 exactly if a buffer was free, the payload fits, the address resolves and the NIC took the frame; the pool changes by one send step and stays whole |
| Inet6Stack.Inet6Stack.Icmp6Send | src/inet6.c:239-259 | the same for ICMPv6 messages |
| Inet6Stack.Inet6Stack.UdpRecv | src/inet6.c:261-287 | in place, delivers or drops as the frame's meaning says |
| Inet6Stack.Inet6Stack.IcmpRecv | src/inet6.c:289-338 | in place, answers or drops as the frame's meaning says |
| Inet6Stack.Inet6Stack.EthRecv | src/inet6.c:340-389 | for every buffer content and length, new cache and action are those of the frame's meaning |
| Inet6Stack.Inet6Stack.Receive | src/inet6.c:326-333 | every answer goes out, to where the frame came from, if a buffer is free and the NIC takes it, and the pool stays whole |
| AckPath.AnswerReachesSender | src/netboot.c:116-120 | the answer to a delivered protocol message resolves, and its frame delivers at the sending stack a datagram that parses to that answer |
| BufferPool.MaskRecoversHeader | src/netifc.c:61 | masking any pointer into a 2048-byte slot gives the header |
| BufferPool.StepPartition | src/netifc.c:46-81 | every send, failed send and completion keeps each buffer on the duplicate-free free list or with the NIC; a send that fails leaves the free list exactly as it was |
| BufferPool.Conservation | src/netifc.c:46-81 | over every run in which the NIC reports only buffers it holds, the buffers stay partitioned and their number constant |
| BufferPool.ReportKeepsPartition | src/netifc.c:248-250 | a completion keeps the partition if and only if the NIC held the reported buffer |
| NetIfc.NetIfc.EthGetBuffer | src/netifc.c:46-58 | pops the head of the linked list, which stays acyclic and without duplicates; fails exactly on a too large request or an empty list |
| NetIfc.NetIfc.EthPutBuffer | src/netifc.c:60-70 | pushes the buffer the masked pointer belongs to; a damaged header is detected and nothing changes; the list stays acyclic if and only if the buffer was not on it, and else no acyclic list is left at all |
| NetIfc.NetIfc.EthSend | src/netifc.c:72-81 | the buffer goes to the NIC or, if transmission fails, back to the head of the list, with the same two exceptions: a damaged header and a buffer that was on the list already |
| NetIfc.NetIfc.Fill | src/netifc.c:170-176 | the set-up loop puts all 16 slots on the list, the last first, with their headers stamped |
| NetIfc.NetIfc.constructor | src/netifc.c:165-176 | after set-up every buffer is free and every header intact |
| NetIfc.NetIfc.PollTx | src/netifc.c:244-250 | a completion of a buffer the NIC holds moves it to the list and keeps the partition |
| E820.TypeClasses | src/osboot.c:45-76 | for every UEFI type value, which E820 type it gets, both ways |
| E820.AddDescriptor | src/osboot.c:105-119 | one turn of the loop on the table in place: ignore, merge into the last entry, or append |
| E820.ProcessMemoryMap | src/osboot.c:81-128 | returns -1 exactly if the firmware call failed or the unbounded table needs 128 or more entries, and otherwise the table in place |
| E820Meaning.MeaningPreserved | src/osboot.c:104-127 | for non-wrapping descriptors in any order, an address is covered by an entry of a type exactly when it is by a descriptor of that type |
| E820Meaning.BytesConserved | src/osboot.c:104-127 | the bytes per type are the same in map and table |
| E820Meaning.BytesModulo | src/osboot.c:104-127 | for every map, wrapping or not, the bytes per type in the table are those of the map less a multiple of 2^64 |
| E820Meaning.OneDescriptor | src/osboot.c:116-118 | a single descriptor keeps its meaning if and only if its size fits 64 bits |
| E820Meaning.CanonicalUnique | src/osboot.c:110-115 | two canonical tables with the same meaning are equal |
| E820Meaning.CanonicalForm | src/osboot.c:104-127 | for sorted, disjoint, non-empty descriptors the table is canonical, and a table is canonical and describes the map if and only if it is this one |
| E820Meaning.TableDependsOnMeaning | src/osboot.c:104-127 | two sorted maps that describe memory alike give the same table |
| E820Meaning.SplitInvariance | src/osboot.c:110-115 | splitting any descriptor of a sorted map never changes the table |
| ZeroPage.FieldsReadBack | src/osboot.c:244-259 | for every setup header length the fields at 0x228, 0x220 and 0x080 read back the command line pointer, itself if it fits 32 bits and else up to a multiple of 2^32, the magic and the ACPI root |
| ZeroPage.FramebufferReadsBack | src/osboot.c:349-355 | the fields at 0x090 to 0x0A8 read back the framebuffer, its base itself if it fits 32 bits |
| ZeroPage.RamdiskReadsBack | src/osboot.c:365-368 | the fields at 0x218 and 0x21C read back base and size of the ramdisk, themselves if they fit 32 bits, or 0 when there is none |
| ZeroPage.CountReadsBack | src/osboot.c:167-170 | entry count and loader type read back |
| ZeroPage.TableReadsBack | src/osboot.c:167-170 | every packed 20-byte entry fits the page and decodes to the table's entry, for up to 127 entries |
| ZeroPage.RestOfPage | src/osboot.c:245-246 | every other byte is the image's from 0x1F1 up to 0x200 plus byte 0x201 of the image, and zero outside |
| ZeroPage.ZeroPageBuffer.LoadKernel | src/osboot.c:244-259 | on any page: command line, empty ramdisk and loader type read back, every other byte is the image's within the setup header and untouched outside |
| ZeroPage.ZeroPageBuffer.InstallMemmap | src/osboot.c:167-170 | on any page: the count and every entry of the table read back, and every other byte is untouched |
| ZeroPage.ZeroPageBuffer.BootKernel | src/osboot.c:341-389 | the page after all stores is the one whose fields are proved to read back |
| BootMap.KernelSeesMemoryMap | src/osboot.c:81-170 | for every map that does not wrap and whose table fits, the table the kernel decodes from the finished page covers an address with a type exactly when a descriptor does |
| Ip6Text.Ip6toa | src/inet6.c:391-444 | the text depends only on the 16 address bytes, although two bytes behind them are read, fits IP6TOAMAX with its NUL and parses back to the groups 256 * a[2i] + a[2i + 1] |
| Ip6Text.PrintParse | src/inet6.c:391-444 | the text of every address parses, by section 2.2 of RFC 4291, to that address |
| Ip6Text.PrintInjective | src/inet6.c:391-444 | different addresses have different texts |
| Ip6Text.DoubleAtMostOnce | src/inet6.c:403-443 | "::" occurs exactly once if some group is zero, behind the groups before the first zero, and never otherwise |
| Ip6Text.WholeRun | src/inet6.c:398-443 | without a zero group the text is the plain groups, and else the groups around the whole first run of zeros |
| Ip6Text.HexIsMinimal | src/inet6.c:411-442 | every group is printed in lower case without leading zeros |
| Ip6Text.FormatFits | src/inet6.h:124-127 | text plus NUL fit IP6TOAMAX |
| Console.PcState.PutChar | lib/console-printf.c:36-44 | one character, translated and flushed when the buffer is full, without leaving the 128 slots |
| Console.PcState.ConsoleOut | lib/console-printf.c:30-49 | a string fed character by character to the chunked writer, in place |
| Console.PcState.Finish | lib/console-printf.c:59-62 | what is left in the buffer is shown |
| Console.SplitIndependence | lib/console-printf.c:30-49 | how the text is split into calls does not matter |
| Console.TranslationIsFaithful | lib/console-printf.c:36-39 | in the translated text every newline follows a carriage return, and dropping those gives the text back |
| Console.ShownAsItself | lib/console-printf.c:40 | apart from the translation every ASCII character is shown as itself, and other bytes sign-extended |
| Console.ConsoleRefinement | lib/console-printf.c:51-64 | one printf adds the translated text to what the console shows if and only if the text holds no NUL |

## Left out

- Wrap-around of the host's cookie: runs make fewer than 2^32 - 1 calls of `io`; the step function of the host itself wraps.
- A file that changes between or during transfers, several hosts at once, and a target that restarts: the protocol has nothing to tell these apart.
- Liveness beyond `CanBoot`: no fairness of the channel is assumed, so nothing is said about a transfer having to succeed.
- UEFI firmware calls: their outcomes are parameters; `AllocatePages`, `ExitBootServices`, `LoadImage`, timers and the memory map key are not modelled.
- The checks of `load_kernel` on the image and its error paths, and the copy of the kernel itself: a valid image of at least 1024 bytes is taken as given.
- `boot_kernel` does not look for -1 before installing the table; `ZeroPage.ZeroPageBuffer.InstallMemmap` covers tables that were built.
- E820Meaning.MeaningPreserved: descriptors whose end reaches 2^64 are excluded, since their size or the end of a merged entry may be cut off; `OneDescriptor` and `BytesModulo` say what is left for a single descriptor and for any map.
- `process_memory_map` reads descriptors at the firmware's stride; the model takes them as a sequence.
- Ip6Text.Ip6toa: asks for two readable bytes behind the address, because the source reads them; their values are arbitrary.
- BufferPool.MaskRecoversHeader: addresses are integers and the mask is written as subtraction of the remainder.
- The endless loop after a damaged buffer header is a result of `EthPutBuffer`, not a hang.
- NbServer.NbServer.Io: progress characters on standard error and the values of `errno` are not modelled; `Await` is the part of the same loop from its label on.
- Contents of advertisements, socket set-up, argument handling and `drain` in the host, multicast filters, graphics modes, the search for the ACPI root, `start_kernel`, the local boot path and the demo programs: plumbing that would only add easy members.
- The printf engine: `%x` is minimal lower-case hexadecimal, and the console writer takes the strings the engine hands over.
- Text forms of addresses with an embedded IPv4 address: the printer never produces them.
