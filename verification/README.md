# Verified model of the userland state machines

The repository holds freestanding programs for a hobby operating system. This project models the parts of them that
are small state machines or exact arithmetic, and proves what they are relied on for:

- the network stack of `c/libcr2`: Internet checksum, ARP cache, transmit path down to the Ethernet frame, the
  eight-slot TCP socket table, and SLIP reception;
- the server half of the chat program, whose client table must follow the socket table;
- the stack instructions and the text-memory renderer of the 16-bit emulator `c/them`;
- five functions of the Memento windows: line drawing, IRC line reassembly, the user-space allocator, the calculator
  and the file browser's paths;
- the HTTP responses of `c/garn`.

Code that changes state in place is a class or an array method, proved against a function on values; the properties
are lemmas about those functions, over every input and every run. Integers are as wide as in C, and wrap where C wraps.

| file | models |
|---|---|
| `Bytes.dfy`, `Decimal.dfy`, `CString.dfy` | integer widths, decimal numerals, NUL-terminated buffers |
| `Checksum.dfy` | `inet_cksum`, `icmp_make_reply` |
| `ArpCache.dfy` | `eth_arp_cache_update`, `eth_arp_cache_lookup` |
| `Transmit.dfy`, `EthDriver.dfy` | what `send_tcp_packet` and `eth_drv_send` put on the wire, and the code that does it |
| `Tcp.dfy`, `TcpStack.dfy` | the socket table as functions and as the array the code updates |
| `TcpRuns.dfy`, `TcpDemux.dfy` | sequence accounting, table safety, demultiplexing, receive conservation |
| `TcpSegments.dfy`, `TcpAnswers.dfy` | what every segment of a run says, and how packets and calls are answered |
| `TcpWire.dfy` | the segments of a run as the bytes on the wire |
| `Chat.dfy`, `RoomData.dfy` | the chat server's loop, and whose bytes it reads |
| `Slip.dfy` | `decode_slip` and `slip_recv` |
| `Mmu.dfy`, `StackMachine.dfy`, `StackOps.dfy`, `Emulator.dfy` | the emulator's memory, its stack instructions on values, their opcodes byte by byte, and the CPU object |
| `Bresenham.dfy`, `IrcLines.dfy`, `BumpHeap.dfy`, `Calculator.dfy`, `Browser.dfy` | the Memento functions |
| `Http.dfy` | `u32_to_str`, `str_append`, `respond`, `route_file` |

Results where the code is right only under a condition are stated as equivalences with that condition:

- the checksum is right exactly when the word sum stays below 2^32, and 131074 bytes is the last length for which it always does;
- the ARP cache equals an unbounded table exactly up to eight addresses;
- a transmitted segment is right exactly when the flags' high nibble is not 5 and the peer is not the driver's own address
  (unless it is also the local one);
- a new connection keeps address tuples distinct exactly when its tuple is new; a repeated SYN takes a second slot;
- a packet changes a slot that does not own it exactly when a SYN opens the slot, or a RST hits the local port of a slot
  that is connecting: the source looks at neither the address nor the port such a RST comes from;
- accepting a segment conserves data exactly when the receive buffer was read empty and the segment fits;
  a new connection, passive or active, does exactly when its slot holds no stale `rx_len`, which is stored unclamped and
  which `free_socket` leaves set; over a run a slot conserves its data at every moment exactly when each event is of this
  kind at that slot, whatever the other slots do;
- the chat room, having read exactly what each connection accepted, has done so again after a packet exactly when the
  packet's data fits one read of 1023 bytes and does not come with a FIN: data on a FIN stays in the freed slot and would
  be read as the next peer's;
- a SLIP message arrives exactly when its encoding, leading ENDs included, is at most 2048 bytes;
- a text-memory write keeps the screen free of zero cells exactly unless it zeroes a character past the first cell of the
  last row: the redraw range of `mmu_write` stops there, although the screen has 25 rows;
- the line reaches its endpoint exactly when the longer axis is at most 511;
- IRC lines are independent of segmentation exactly when every finished line has at most 511 characters;
- the allocator answers correctly exactly when aligned offset plus size does not pass 2^64;
- the calculator's display reads back as the number exactly when it is above -10^18, so a repeated operator key keeps the
  accumulator exactly then;
- going up undoes going in exactly when the name brings no slash of its own.

The path results need no condition on the mount root: a trailing slash or a one-character root works as well.

## Model

| member | source | states |
|---|---|---|
| Checksum.FoldCarries | c/libcr2/bytes.h:34-35 | the carry loop ends and leaves the representative of the sum modulo 65535 that is 0 only for 0 |
| Checksum.Accumulate | c/libcr2/bytes.h:25-32 | the summing loop holds the integer sum of the big-endian words, odd tail padded, modulo 2^32 |
| Checksum.FoldIsOnesSum | c/libcr2/bytes.h:28-37 | folding once at the end equals end-around carry at every addition (section 1 of RFC 1071) |
| Checksum.InetCksum | c/libcr2/bytes.h:25-38 | the result is the RFC 1071 checksum if and only if the word sum is below 2^32 |
| Checksum.WrapIsVisible | c/libcr2/bytes.h:26-35 | a wrapped accumulator always folds to another value |
| Checksum.AccumulatorBound | c/libcr2/bytes.h:26-32 | no buffer of a length can wrap the accumulator if and only if the length is at most 131074 |
| Checksum.SealedVerifies | c/libcr2/bytes.h:25-38 | storing the checksum big-endian in a zeroed even-offset field makes the whole buffer's checksum 0, even or odd length |
| Checksum.TotalAppend | c/libcr2/bytes.h:28-29 | word sums add up across an even boundary |
| Checksum.WordValues | c/libcr2/bytes.h:28-32 | a word's first byte is the most significant, and an odd last byte counts as if a zero followed |
| Checksum.IcmpMakeReply | c/libcr2/net.c:518-530 | only bytes 0, 2 and 3 change, and up to 131074 bytes the reply's checksum verifies; shorter than 8 nothing changes |
| Bytes.Memcpy | c/libcr2/mem.c:16-27 | the destination range equals the source, all else is unchanged |
| ArpCache.Cache.Update | c/libcr2/net.c:58-72 | the table is the one of the history extended by this address and MAC |
| ArpCache.Cache.Find | c/libcr2/net.c:74-84 | a hit is the MAC most recently learned for the address |
| ArpCache.HistoryInvariant | c/libcr2/net.c:56-72 | after any history valid entries form a prefix with distinct addresses, each with its latest MAC |
| ArpCache.HitIsLatest | c/libcr2/net.c:74-84 | lookup hits exactly the cached addresses and never returns a stale MAC |
| ArpCache.RefinesMap | c/libcr2/net.c:48-84 | the cache answers like an unbounded map for all addresses if and only if at most eight were learned |
| ArpCache.OnlySlotZeroEvicted | c/libcr2/net.c:58-72 | whatever is learned later, entries 1 to 7 keep their address |
| Transmit.HostToWire | c/libcr2/net.c:337-361 | the byte-order detection yields the network-order header from the host-order one exactly unless the flags' high nibble is 5, and keeps a network-order header |
| Transmit.ParseWire | c/libcr2/net.c:568-580 | the receiver's parse of a network-order header gives ports, sequence, acknowledgement and flags |
| Transmit.TransmitExact | c/libcr2/net.c:769-831 | the emitted packet has the IP fields, the socket's addresses, verifying checksums, every TCP header field at its RFC 9293 offset and the payload if and only if the flags' high nibble is not 5 and the remote is not the driver's address, or equals the local one |
| Transmit.TransmitCorrect | c/libcr2/net.c:309-409 | with the driver's own address as local address and the stack's flag sets, every segment is delivered right |
| Transmit.OrderIndependent | c/libcr2/net.c:337-361 | host-order and network-order input give the same packet |
| Transmit.EmitIdempotent | c/libcr2/net.c:309-409 | sending an emitted packet again changes nothing |
| EthDriver.Driver.EthDrvSend | c/libcr2/net.c:309-409 | exactly one frame, the rewritten packet behind its next hop, goes out if and only if the IHL is not 0 and the header length is at most the total length, which is at most 1500 |
| EthDriver.Driver.FixHeader | c/libcr2/net.c:328-335 | the in-place address fix-up, and the checksum of the first hdr_len bytes in the header's field |
| EthDriver.Driver.FixTcp | c/libcr2/net.c:348-386 | the in-place field swaps and TCP checksum at any offset, also one inside the addresses |
| EthDriver.Driver.TcpCksum | c/libcr2/net.c:363-385 | accumulating pseudo header and segment without joining them gives the checksum of their concatenation |
| EthDriver.Driver.SendFrame | c/libcr2/net.c:388-408 | the frame is next hop, own MAC, IPv4 type and the packet |
| EthDriver.Driver.FrameBytes | c/libcr2/net.c:388-408 | bytes 6 to 11 of a frame are the driver's MAC, 12 and 13 the IPv4 type, then comes the packet; bytes 0 to 5 are broadcast or the MAC last learned for the packet's destination, which is used whenever at most eight addresses were learned and it is not the driver's own |
| EthDriver.Driver.SendTcpPacket | c/libcr2/net.c:769-831 | the built packet goes to the driver if and only if both crafting calls succeed |
| TcpRuns.SequenceAccounting | c/libcr2/net.c:623-744 | over every run an active slot's number is 1 plus the bytes emitted modulo 2^32, each segment carries the value from before its bytes, a SYN 0, and a SYN_SENT slot holds 1 |
| TcpRuns.AcknowledgementAccounting | c/libcr2/net.c:638-711 | over every run the acknowledgement is the peer's initial number plus 1 plus the bytes accepted if and only if the last accepted segment continued the stream |
| TcpRuns.TableSafety | c/libcr2/net.c:638-749 | in every reachable table unused slots are CLOSED, used ones know their index, none is in FIN_WAIT |
| TcpRuns.StepKeeps | c/libcr2/net.c:582-749 | every operation keeps the joint invariant of table and history |
| TcpSegments.EverySegment | c/libcr2/net.c:623-831 | over every run each segment names the ends of the packet or connect that opened its connection, and acknowledges 0 before an answer, the peer's SYN before data and the end of the last arrival after it; its flags are SYN, SYN and ACK right after accepting, or ACK, or close the connection (RST before an answer, FIN and ACK after it) with the slot freed right behind |
| TcpSegments.ResetsGiveUp | c/libcr2/net.c:629-636 | a RST goes out only on a connection this side opened and nobody answered, and ends it |
| TcpAnswers.SegmentData | c/libcr2/net.c:647-695 | a segment made of a header of k words and d carries exactly d |
| TcpAnswers.HeaderOnly | c/libcr2/net.c:692 | a packet no longer than its header carries nothing |
| TcpAnswers.FlagBits | c/libcr2/net.c:647 | FIN, SYN, RST and ACK are bits 0, 1, 2 and 4 of the offset word |
| TcpAnswers.SynAnswered | c/libcr2/net.c:650-671 | a SYN to a listener takes the first free slot for its peer and is answered by SYN and ACK from the address and port it came to, numbered 0 and acknowledging the SYN; nothing else changes |
| TcpAnswers.SynDropped | c/libcr2/net.c:651-655 | with every slot used a SYN changes nothing |
| TcpAnswers.SynAckAnswered | c/libcr2/net.c:678-684 | the peer's SYN and ACK establish the connection with the address they came to, and get one bare ACK |
| TcpAnswers.ConnectingWaits | c/libcr2/net.c:673-684 | anything else from the peer but a RST is ignored while connecting |
| TcpAnswers.ResetObeyed | c/libcr2/net.c:673-690 | a RST frees the slot it reaches silently, a connecting one from any sender |
| TcpAnswers.DataAnswered | c/libcr2/net.c:692-703 | over the whole loop, data of a connection is stored as far as the buffer goes and gets one bare ACK of its end |
| TcpAnswers.FinAnswered | c/libcr2/net.c:692-708 | a FIN gets one bare ACK, after that of its own data, and the slot is freed |
| TcpAnswers.BareSegmentIgnored | c/libcr2/net.c:686-709 | without data and FIN nothing changes and nothing is sent |
| TcpAnswers.ConnectSends | c/libcr2/net.c:726-744 | one SYN numbered 0 that acknowledges 0, and the slot's fields |
| TcpAnswers.CloseSends | c/libcr2/net.c:629-636 | one FIN and ACK on a connection, one RST on an unanswered one, nothing elsewhere; then the slot is freed |
| TcpAnswers.WriteSends | c/libcr2/net.c:623-627 | one attempt with ACK and the data; the number grows by the data exactly if it went out |
| TcpDemux.ListenerKept | c/libcr2/net.c:638-711 | no packet changes or frees a listener |
| TcpDemux.AtMostOneSlot | c/libcr2/net.c:638-711 | with distinct tuples and a fresh SYN a packet keeps tuples distinct and changes at most the returned slot, which owns the packet, is opened by it or is reset by it |
| TcpDemux.Demultiplexing | c/libcr2/net.c:638-749 | over every run whose new connections use fresh tuples: tuples distinct; the next packet changes at most one slot, only one that owns it, that it opens or that it resets, and no listener |
| TcpDemux.StrayChange | c/libcr2/net.c:638-711 | in any table, a packet changes a slot that does not own it if and only if a SYN opens that slot or a RST hits its port while it is connecting |
| TcpDemux.RepeatedSynDuplicates | c/libcr2/net.c:650-671 | whenever a SYN opens a slot, tuples stay distinct if and only if no active connection has its tuple, or the same packet finished that connection in an earlier slot |
| TcpDemux.ConnectDistinct | c/libcr2/net.c:726-744 | a connect keeps tuples distinct if and only if its tuple is new |
| TcpDemux.ReceiveExact | c/libcr2/net.c:692-703 | storing a segment conserves data if and only if the buffer was empty and the segment is at most 1024 bytes |
| TcpDemux.ReadExact | c/libcr2/net.c:611-621 | read conserves data if and only if the caller's buffer takes all that waits |
| TcpDemux.OpenExact | c/libcr2/net.c:650-671 | a passively opened slot starts conserving if and only if no stale bytes wait in it, however many |
| TcpDemux.ConnectExact | c/libcr2/net.c:726-744 | an actively opened slot starts conserving if and only if no stale bytes wait in it |
| TcpDemux.PacketExact | c/libcr2/net.c:638-711 | a packet conserves slot i's data if and only if data it brings to slot i finds the buffer empty and fits, and it opens slot i only empty |
| TcpDemux.StepExact | c/libcr2/net.c:582-749 | every event conserves slot i's data if and only if it is exact at slot i; no other slot has a say |
| TcpDemux.ReceiveConservation | c/libcr2/net.c:611-703 | over every run and for each slot: what was read followed by what waits is what was accepted, at every moment, if and only if every event is exact at that slot |
| TcpDemux.CarefulRunIsExact | c/libcr2/net.c:611-703 | a discipline of one connection suffices: its data arrives in an empty buffer that it fits, its FIN brings none, its reads take everything, its free slot holds none |
| TcpWire.EveryEmission | c/libcr2/net.c:623-831 | every segment of every run, against the history before it: on the wire it goes between the ends its connection was opened with, numbered 1 plus the bytes emitted before it (0 with SYN), acknowledging what had arrived, unless the peer is the driver's own address and not the local end's |
| TcpStack.Stack.OnTcpPacket | c/libcr2/net.c:638-711 | the loop over the slots does to the array what the table function says, and keeps the invariant of runs |
| TcpStack.Stack.OnSocket | c/libcr2/net.c:640-710 | one iteration: listen, refuse, answer, receive, reset and finish branches, and whether the function returns |
| TcpStack.Stack.SendTcpPacket | c/libcr2/net.c:769-831 | one attempt is recorded, with the socket's fields as TcpSegments.EverySegment and TcpAnswers.WriteSends spell them; the number then grows by the payload modulo 2^32, and a failed craft changes nothing |
| TcpStack.Stack.AllocSocket | c/libcr2/net.c:713-724 | the first unused slot is taken and numbered, none when all are used |
| TcpStack.Stack.FreeSocket | c/libcr2/net.c:746-749 | unused and CLOSED, every other field kept |
| TcpStack.Stack.SocketTcp4 | c/libcr2/net.c:582-591 | a taken slot in state CLOSED |
| TcpStack.Stack.TcpConnect | c/libcr2/net.c:726-744 | a taken slot in SYN_SENT with a SYN numbered 0 on the wire and 1 stored |
| TcpStack.Stack.Read | c/libcr2/net.c:611-621 | the returned bytes are the first min(rx_len, maxlen) of the buffer, and rx_len becomes 0 |
| TcpStack.Stack.Write | c/libcr2/net.c:623-627 | one ACK segment with the data |
| TcpStack.Stack.Close | c/libcr2/net.c:629-636 | the table and history of a close, which TcpAnswers.CloseSends spells: FIN and ACK or RST by state, then the slot is freed |
| Chat.PacketKeepsServing | c/libcr2/net.c:638-711 | any packet leaves the listener in slot 0 and every other slot either free and CLOSED or an established port-9000 connection |
| Chat.RoomForEverySlot | c/chat/main.c:381-401 | a connection without an entry always finds a free entry, so the full-room branch cannot be taken |
| Chat.RecipientsExact | c/chat/main.c:127-160 | the recipients are exactly the other ready established members, each once |
| Chat.MulticastObserved | c/chat/main.c:127-160 | a message is attempted once per recipient and part, in order, and nothing else is sent |
| Chat.ScriptExact | c/chat/main.c:129-159 | a script has each message once per recipient, recipient by recipient in order |
| Chat.MessageForwarded | c/chat/main.c:405-469 | what waits for a confirmed member is read in its turn and tried, behind "[nick] ", once for each recipient; every other ready connected member is one, and nobody unready or unconnected, nor the sender |
| Chat.RoomHears | c/chat/main.c:361-469 | in a room that has read everything, a packet's data from a confirmed member is tried in the same pass once for every other ready connected member |
| Chat.NameEntered | c/chat/main.c:413-421 | a line of at most fifteen plain characters typed into a fresh entry becomes the nickname; CR, LF and what follows are dropped |
| Chat.Room.ServerIteration | c/chat/main.c:361-508 | one server pass keeps the coupling: entries are exactly the live connections, distinct and counted, readiness implies an entry, nicknames end within 16 bytes; surviving members keep entry and confirmed name; what it sends is exactly the prompts to newcomers, what each entry's turn brings, and the farewells, in order; a room that has read exactly what was accepted on each connection has again if and only if the packet is harmless |
| Chat.CleanIteration | c/chat/main.c:361-508 | after a pass everything accepted on each connection, and nothing else, has been read on it if and only if the packet's data fits 1023 bytes and does not come with a FIN |
| RoomData.SlotThrough | c/chat/main.c:405-408 | the same for one slot, by whether the pass reads it |
| RoomData.DataWaits | c/libcr2/net.c:692-703 | the data a packet brings to a slot of a room that has read everything waits there, whole |
| Chat.Room.Discover | c/chat/main.c:370-402 | afterwards every connection has an entry, old entries are kept, and exactly one prompt was tried per newcomer |
| Chat.Room.Place | c/chat/main.c:381-396 | a free entry is claimed, unready and without a name, and exactly the prompt is written to the connection; otherwise nothing is sent and it reports that there is none |
| Chat.Room.ReadPeers | c/chat/main.c:405-469 | entries, connections, confirmed readiness and confirmed names are kept; each entry has one turn, in order, that reads what waits on its connection and does with it what Hear does, and nothing else is sent |
| Chat.Room.ReadPeer | c/chat/main.c:406-468 | one entry's turn: its connection, if up, is read once, and what comes is heard |
| Chat.Room.Hear | c/chat/main.c:411-468 | a confirmed member's bytes are tried to every other ready established member behind "[nick] ", in table order, and change nothing; anyone else's go into the nickname, with exactly the replies of its confirmation or rejection; no received data moves |
| Chat.Room.EnterNick | c/chat/main.c:412-456 | the nickname grows by the typed bytes before the line end, CRs dropped, cut at 15, is confirmed exactly on a line end with a non-empty name, and exactly the rejection, or the welcome and the announcement, are sent |
| Chat.Room.Welcome | c/chat/main.c:432-456 | the welcome goes to the new member and the announcement to the other ready members, nothing else is sent |
| Chat.Room.CollectNick | c/chat/main.c:413-421 | the byte loop as a function of the received bytes, always NUL-terminated |
| Chat.Room.Broadcast | c/chat/main.c:127-135 | exactly the multicast to the ready members but one |
| Chat.Room.ForwardMsg | c/chat/main.c:142-160 | exactly the multicast of "[nick] " and payload to the ready members but the sender |
| Chat.Room.Detect | c/chat/main.c:472-508 | entries of gone connections are dropped, the coupling is restored, and exactly the farewells of confirmed ones are tried, each to those ready then |
| Chat.Room.Drop | c/chat/main.c:476-501 | the entry is cleared and counted off, and exactly the farewell with the saved name goes to the ready members if it was confirmed |
| Chat.Room.Say | c/chat/main.c:310-314 | a line typed at the server is two multicasts to all ready members, and the coupling stays |
| Slip.DecodeSlip | c/libcr2/net.c:473-516 | the loop's result and output are those of the decoding automaton with the output's capacity |
| Slip.DecodeAppend | c/libcr2/net.c:473-516 | appended bytes never change a decided result, and an undecided one resumes where it stopped |
| Slip.RecvIsStep | c/libcr2/net.c:12-33 | decoding the whole buffer again on each byte equals one step of the automaton |
| Slip.DecodeStuffed | c/libcr2/net.c:473-516 | decoding a stuffed payload gives the payload |
| Slip.Escapes | c/libcr2/net.c:473-516 | DB DC stands for C0, DB DD for DB, other bytes for themselves, another byte after DB is an error, and C0 ends a frame with data |
| Slip.Receiver.SlipRecv | c/libcr2/net.c:12-33 | one call takes one byte, and returns the finished frame clipped to maxlen, or nothing |
| Slip.FrameBoundExact | c/libcr2/net.c:8-33 | a message arrives if and only if its encoding is at most 2048 bytes |
| Slip.StuckForever | c/libcr2/net.c:12-33 | a full buffer without its END never delivers again |
| Slip.StreamDelivery | c/libcr2/net.c:12-33 | any list of fitting messages with any leading ENDs comes out payload by payload, each on its closing byte, nothing in between |
| Slip.PayloadsInOrder | c/libcr2/net.c:12-33 | the non-empty results are the payloads in order |
| Mmu.Memory.MmuWrite | c/them/mmu.c:6-14 | the mutual recursion ends, restores the lock, and memory is the written one, rendered when the address redraws |
| Mmu.Memory.RenderTextMode | c/them/gfx.c:10-40 | the nested loops render all 2000 cells, clear the lock, and return the characters shown |
| Mmu.RenderEffect | c/them/gfx.c:14-36 | exactly the zero cells become blanks, every other byte of memory is unchanged, no zero cell remains |
| Mmu.RenderFixed | c/them/gfx.c:14-36 | rendering changes nothing if and only if no cell is zero, so it is idempotent |
| Mmu.WriteEffect | c/them/mmu.c:6-14 | a redrawing write leaves its byte and the cell's other byte, or a blank cell if the character is then zero, and changes no other non-zero cell and nothing outside text memory |
| Mmu.WriteKeepsScreen | c/them/mmu.c:6-14 | a screen without zero cells stays so if and only if the write does not zero a last-row character past its first cell |
| StackMachine.PushCons | c/them/cpu.c:114-198 | push conses a word on the stack's list and changes only the two bytes below SS:SP |
| StackMachine.PopUncons | c/them/cpu.c:45-112 | pop takes the head of the list into the register and leaves memory alone |
| StackMachine.StepRefines | c/them/op_codes.c:563-755 | each safe stack instruction is its counterpart on the list of words |
| StackMachine.StackRefinement | c/them/op_codes.c:25-755 | over any run whose stack instructions are safe and whose other instructions keep SS, SP, stack area and code, memory from SS:SP up is the list the abstract machine computes; the code stays, and without other instructions everything outside the stack area |
| StackMachine.CallReturns | c/them/op_codes.c:164-178 | a CALL, any such code that never pops its return address, and a RET at that depth continue after the CALL with SP and the caller's stack restored |
| StackMachine.PopaUndoesPusha | c/them/op_codes.c:607-619 | on lists, POPA after PUSHA restores the saved registers and the list |
| StackMachine.PopaRestores | c/them/op_codes.c:607-619 | POPA restores all eight general registers that PUSHA saved, after any such code that kept what PUSHA pushed |
| StackOps.CallLands | c/them/op_codes.c:164-178 | E8 lo hi continues lo + 256 * hi bytes after it modulo 2^16, with the address after it on the stack |
| StackOps.AssembledCall | c/them/op_codes.c:164-178 | the little-endian operand for any target lands on that target |
| StackOps.RetLands | c/them/op_codes.c:747-755 | C3 goes to the word on top, high byte first, and drops it |
| StackOps.RetImmDrops | c/them/op_codes.c:732-746 | C2 lo hi goes to the word on top and raises SP by 2 + lo + 256 * hi |
| StackOps.PushStores | c/them/op_codes.c:669-720 | every push opcode stores its register's value, high byte lower, two below SP |
| StackOps.PopLoads | c/them/op_codes.c:563-602 | every pop opcode loads the word on top into its register and changes no other but IP and SP |
| StackOps.PushaStores | c/them/op_codes.c:721-731 | 60 leaves DI, SI, BP, SP - 8, BX, DX, CX and AX from the top |
| StackOps.PopaLoads | c/them/op_codes.c:607-619 | 61 loads them back, all but SP, which grows by 16 |
| Emulator.Cpu.GetNextByte | c/them/op_codes.c:14-21 | the byte at CS:IP, IP wrapping at 16 bits |
| Emulator.Cpu.PushReg | c/them/cpu.c:114-198 | the object's registers and memory become the pushed state, high byte lower, through the rendering write |
| Emulator.Cpu.PopReg | c/them/cpu.c:45-112 | the object's registers become the popped state |
| Emulator.Cpu.JumpShort | c/them/cpu.c:27-39 | the two-part adjustment adds the sign-extended displacement modulo 2^16 |
| Emulator.Cpu.CallRel16 | c/them/op_codes.c:164-178 | operand fetched, return address pushed and displacement added on the object's fields, as StackOps.CallLands spells them |
| Emulator.Cpu.RetNear | c/them/op_codes.c:747-755 | IP is popped |
| Emulator.Cpu.RetImm16 | c/them/op_codes.c:732-746 | IP popped and the operand dropped on the object's fields, as StackOps.RetImmDrops spells them |
| Emulator.Cpu.PushAllRegs | c/them/op_codes.c:721-731 | the eight pushes in order |
| Emulator.Cpu.PopAllRegs | c/them/op_codes.c:607-619 | the seven pops around the skipped SP |
| Emulator.Cpu.ExecuteStackOp | c/them/op_codes.c:28-29 | one turn of the loop on a stack instruction is one step of the value machine |
| Bresenham.DrawLine | cpp/memento-hello/windows/clock_window.cpp:31-56 | on every line whose computation stays within int: starts on the first endpoint, plots max(dx, dy) + 1 points or 512, ends on the second endpoint if and only if max(dx, dy) is at most 511; point k has moved k along the longer axis and is within half a step of the line |
| Bresenham.ModerateIsDefined | cpp/memento-hello/windows/clock_window.cpp:34-54 | no slope overflows int while both extents are at most 715827882 |
| Bresenham.FlatDefined | cpp/memento-hello/windows/clock_window.cpp:34-54 | a horizontal line stays within int if and only if its extent is below 2^30 |
| Bresenham.Advance | cpp/memento-hello/windows/clock_window.cpp:44-54 | the two tests always move the longer axis and keep twice the distance at most its length |
| Bresenham.MinorBound | cpp/memento-hello/windows/clock_window.cpp:44-54 | the shorter axis never overshoots, and ends where the longer one does |
| Bresenham.EndpointIndex | cpp/memento-hello/windows/clock_window.cpp:42-43 | a point within half a step is the endpoint exactly at the last index |
| Bresenham.NearestPoint | cpp/memento-hello/windows/clock_window.cpp:31-56 | the plotted point is the nearest one: another within half a step can only be the other side of a tie |
| IrcLines.Reader.PollSegment | cpp/memento-hello/windows/irc_window.cpp:503-553 | the nested loops hand over the segment function's lines and carry its partial |
| IrcLines.Reader.ReadLine | cpp/memento-hello/windows/irc_window.cpp:513-526 | the partial is prepended and bytes are copied without CR until LF, a full buffer or the segment's end |
| IrcLines.SegmentCuts | cpp/memento-hello/windows/irc_window.cpp:503-553 | a segment whose finished lines fit yields the reference's lines and, if it fits, the reference's tail |
| IrcLines.SegmentLinesFit | cpp/memento-hello/windows/irc_window.cpp:513-534 | no line handed over exceeds 511 characters |
| IrcLines.ChunkingInvariance | cpp/memento-hello/windows/irc_window.cpp:503-553 | however the stream is cut, the lines are the stream's lines, CR removed and empty ones dropped, if and only if every finished line has at most 511 characters |
| IrcLines.CarriedTail | cpp/memento-hello/windows/irc_window.cpp:543-551 | the carried partial is the unfinished tail |
| IrcLines.SplitDoesNotMatter | cpp/memento-hello/windows/irc_window.cpp:503-553 | two cuts of one stream give the same lines and partial |
| IrcLines.LinesArrive | cpp/memento-hello/windows/irc_window.cpp:503-553 | any lines of at most 511 characters, each ended by a line feed, arrive in order from any segments without their carriage returns, blank ones left out, and what follows the last line feed is carried |
| BumpHeap.Allocator.Malloc | cpp/memento-hello/r2_stubs.cpp:17-23 | without wrap: the block is at the next multiple of 16 if it ends within 2 MiB, use ends at its end, an empty request gets one byte, and it is the run's newest block; otherwise nothing changes; for any size the wrapped arithmetic's answer |
| BumpHeap.Allocator.Calloc | cpp/memento-hello/r2_stubs.cpp:54-57 | malloc of the product modulo 2^64, and the run model's calloc when the product does not wrap |
| BumpHeap.Allocator.R2HeapCheckpoint | cpp/memento-hello/r2_stubs.cpp:14 | the present use, recorded as the run's newest mark |
| BumpHeap.Allocator.R2HeapRestore | cpp/memento-hello/r2_stubs.cpp:15 | going back to a live mark drops exactly the blocks above it and keeps the heap invariant |
| BumpHeap.Allocator.Memmove | cpp/memento-hello/r2_stubs.cpp:60-70 | the destination equals the old source for overlapping ranges in either direction, all else unchanged |
| BumpHeap.MallocExact | cpp/memento-hello/r2_stubs.cpp:17-23 | success means that the block fits if and only if offset plus size is below 2^64 |
| BumpHeap.AllocateKeeps | cpp/memento-hello/r2_stubs.cpp:17-23 | an allocation keeps the heap invariant, memory and older blocks |
| BumpHeap.BlocksDisjoint | cpp/memento-hello/r2_stubs.cpp:9-23 | over any run with last-in-first-out marks live blocks are aligned, inside the heap and pairwise disjoint |
| BumpHeap.OlderBlocksKept | cpp/memento-hello/main.cpp:335-363 | blocks older than every restored mark keep place and contents through later allocations, restores and writes to other blocks |
| BumpHeap.FreshCallocIsZero | cpp/memento-hello/r2_stubs.cpp:54-57 | a calloc block above the high-water mark is all zero |
| Calculator.ParseInp | cpp/memento-hello/windows/calculator_window.cpp:34-44 | the loop reads the signed value of the leading digits, without overflow when that value fits |
| Calculator.FmtNum | cpp/memento-hello/windows/calculator_window.cpp:46-72 | the buffer holds the sign and the numeral without leading zeros, cut to the buffer, NUL-terminated |
| Calculator.ReversedDigits | cpp/memento-hello/windows/calculator_window.cpp:59-65 | all digits of any 64-bit magnitude, last first; 19 suffice |
| Calculator.RoundTrip | cpp/memento-hello/windows/calculator_window.cpp:34-72 | parsing the 20-byte format of v gives v if and only if v is above -10^18, and otherwise v without its last digit |
| Calculator.QuotTruncates | cpp/memento-hello/windows/calculator_window.cpp:82-90 | the quotient leaves a remainder smaller than the divisor with the dividend's sign |
| Calculator.Compute | cpp/memento-hello/windows/calculator_window.cpp:74-92 | sum, difference, product, or the quotient whose remainder is smaller than the divisor with the dividend's sign; the error exactly for a division by zero; the left side for no operator |
| Calculator.PressKeeps | cpp/memento-hello/windows/calculator_window.cpp:94-203 | after any key the display is a number of at most 19 characters or "Err" in the error state, typed numbers have at most 18 |
| Calculator.OpsPressed | cpp/memento-hello/windows/calculator_window.cpp:94-123 | repeated operator keys keep the last one, and the accumulator if and only if it is above -10^18 or the key was not repeated |
| Calculator.DigitsAppended | cpp/memento-hello/windows/calculator_window.cpp:165-184 | typing digits appends them up to 18 characters |
| Calculator.Evaluates | cpp/memento-hello/windows/calculator_window.cpp:94-151 | from any state, operators and numbers ended by '=' give the left-to-right value with accumulators passed through the display where operators repeat |
| Calculator.LeftToRight | cpp/memento-hello/windows/calculator_window.cpp:94-184 | number, operators and numbers, '=': the display is the plain left-to-right truncating value and reads back as it if and only if it is above -10^18; a last division by zero shows "Err" |
| Calculator.SubtractUndoesAdd | cpp/memento-hello/windows/calculator_window.cpp:94-184 | on the keys, n + m - m = shows n |
| Calculator.DivideUndoesMultiply | cpp/memento-hello/windows/calculator_window.cpp:94-184 | on the keys, n * m / m = shows n for m other than 0 when n * m fits |
| Calculator.RepeatLosesDigit | cpp/memento-hello/windows/calculator_window.cpp:98-119 | from the start, the keys 0 - 1000000000 * 1000000000 reach -10^18, and any repeated operator then leaves -10^17 as left-hand side |
| Calculator.ErrorClears | cpp/memento-hello/windows/calculator_window.cpp:165-184 | digits after an error act as after Clear |
| Calculator.DeleteUndoesDigit | cpp/memento-hello/windows/calculator_window.cpp:186-203 | backspace undoes a digit if and only if the digit extended the display |
| Calculator.CalculatorWindow.CommitOpKey | cpp/memento-hello/windows/calculator_window.cpp:94-123 | the window's fields become the operator key's state, and stay well-formed |
| Calculator.CalculatorWindow.DoEqualKey | cpp/memento-hello/windows/calculator_window.cpp:125-151 | the window's fields become the state after '=' |
| Calculator.CalculatorWindow.AppendDigitKey | cpp/memento-hello/windows/calculator_window.cpp:165-184 | the window's fields become the state after a digit |
| Calculator.CalculatorWindow.DelDigitKey | cpp/memento-hello/windows/calculator_window.cpp:186-203 | the window's fields become the state after a deletion |
| Calculator.CalculatorWindow.DoClearKey | cpp/memento-hello/windows/calculator_window.cpp:153-163 | the initial state |
| CString.Strlen | c/libcr2/string.c:3-9 | the index of the first NUL; also the loops slen and plen of the windows |
| Browser.Streq | cpp/memento-hello/windows/mount_window.cpp:44-52 | true if and only if the texts are equal |
| Browser.MountWindow.EnterMount | cpp/memento-hello/windows/mount_window.cpp:73-89 | path and root become exactly the mount's path clipped to 32 bytes, "/" for an empty one, and the directory view shows; a bad index changes nothing |
| Browser.MountWindow.GoUp | cpp/memento-hello/windows/mount_window.cpp:92-110 | at the root the mount list shows, otherwise the last component is gone from the buffer |
| Browser.MountWindow.GoInto | cpp/memento-hello/windows/mount_window.cpp:113-136 | a directory's name clipped to 32 bytes is appended, behind a slash unless the path is one character, exactly when the path with a slash and it is at most 126 characters |
| Browser.StripUndoesPush | cpp/memento-hello/windows/mount_window.cpp:92-136 | stripping undoes appending if and only if the name brings no slash, but for one right after a one-character path |
| Browser.PathIdentifiesStack | cpp/memento-hello/windows/mount_window.cpp:113-136 | under one root different component stacks give different paths |
| Browser.PathSpelled | cpp/memento-hello/windows/mount_window.cpp:113-136 | the path is the root and then every component behind a slash, the first slash left out behind a one-character root |
| Browser.StepRefines | cpp/memento-hello/windows/mount_window.cpp:73-136 | each event does to the path what push, pop or leave does to the stack |
| Browser.RunRefines | cpp/memento-hello/windows/mount_window.cpp:73-136 | so does every run |
| Browser.EveryPath | cpp/memento-hello/windows/mount_window.cpp:73-136 | every reachable path is the root joined with the stack, at most 126 characters, never above the root |
| Http.U32ToStr | c/libcr2/string.c:11-37 | the buffer holds the numeral of the value, NUL-terminated |
| Http.TenDigits | c/libcr2/string.c:13-28 | no 32-bit value is cut at ten digits |
| Http.StrAppend | c/garn/parser.c:4-8 | the text up to its NUL is appended at the offset |
| Http.ExtOf | c/garn/helpers.c:4-10 | the part after the last dot, empty without one |
| Http.HeaderReadsBack | c/garn/helpers.c:65-85 | a reader of header lines finds, in any header sent and followed by any body, the length it was given and exactly that body |
| Http.HeaderIs | c/garn/helpers.c:65-85 | the header has exactly four lines: status and reason, content type, length, and Connection: close |
| Http.Respond | c/garn/helpers.c:65-85 | one piece with the header, then the body when there is one |
| Http.ChunksExact | c/garn/router.c:81-89 | the pieces are non-empty, at most 128 bytes, as few as possible, and together the body |
| Http.SendBody | c/garn/router.c:81-89 | the loop writes exactly those pieces |
| Http.LengthTruth | c/garn/router.c:73-90 | in the pieces written to the socket, the announced length is the number of body bytes that follow, and they are the buffer's first bytes |
| Http.RepliesRead | c/garn/router.c:44-90 | both replies, 200 with the file and 404, have their status line and content type, and read back with their true length and body |
| Http.RouteFile | c/garn/router.c:65-90 | the pieces written make a 200 reply with the content type of the name's extension whose announced length and body are the first size bytes by the directory, the whole text when there is no size, or the first cap bytes when that is more than the buffer takes, in pieces of at most 128 bytes; a 404 reply when the read failed |

## Left out

- Kernel calls are inputs: whether a crafting call succeeds and the header fields it chooses (`Craft`, `kernel`), the byte a serial read delivers, the size a directory listing reports, and what `read_file` left in the buffer.
- Drawing, layout, mouse, fonts, sound, clocks and keyboard tables; `drawLine`'s rectangles are recorded by their corner only.
- `eth_drv_recv` and its inline ARP and ICMP handling, `eth_drv_recv_nb`, `slip_send`, `c/eth/main.c`: the same calls without a new argument.
- `accept` and `socket_select`: read-only scans of the table.
- The source's TCP has no retransmission, no check of the peer's sequence numbers and no FIN_WAIT; FIN is not counted in the acknowledgement. None of this is claimed.
- Programs use the socket calls as the repository's do: bind and listen on a fresh socket, write at most 1460 bytes on an established one, resend a SYN only while it is unanswered.
- Local buffers bound arguments in the source without a check; the bounds are preconditions (payload of at most 1460 bytes, a sent IP packet of at least 20 bytes, HTTP headers of at most 256 bytes, NUL-terminated text in a buffer).
- Memory's `start` offset is 0, as the emulator's main program sets it.
- Emulator instructions that do not touch the stack enter runs only by what they leave in registers and memory; not modelled are POP SP and POP SS in the refinement, and odd return immediates. PUSH SS pushes DX in the source, and does so here.
- The written-out register pushes and pops of PUSHA and POPA are loops over register lists.
- StackMachine.StackRefinement: for runs whose stack area is disjoint from the code and from the redrawing addresses, whose SP does not wrap and whose addresses stay in memory; elsewhere a push may overwrite code, and no list describes the stack.
- Bresenham.DrawLine: only lines whose computation stays within int, on which alone the C++ code is defined.
- A pointer to a socket is its index in the table, and a socket is a record stored in that array; two pointers to one socket are equal indices.
- The chat client's mode, its keyboard handling and printed lines.
- `processLine` and everything after it: a finished line ends in the list the reader hands over.
- IRC lines that are too long are modelled with the source's resynchronisation, but nothing is claimed about their text.
- `realloc`, which does not copy; a calloc block below the high-water mark, which is not cleared.
- Signed overflow in the calculator is undefined in C++ and is a precondition of each key; so is a result of -2^63, which the code cannot negate.
- Browser names and mount paths are free of NUL and names are not empty; the file viewer's path and the scroll position's bounds are not modelled.
- The directory lookup of `route_file`, `content_type_for`'s reads past a short extension, and the other routes.
- Whether the kernel sends what the HTTP server writes: a failed crafting call drops a piece without the server noticing.
- HTTP bytes and path bytes are characters; nothing depends on their upper bound.
- Rust, Go, NASM and example programs, shells, argument parsing and printf.
