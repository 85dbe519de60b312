/** How the stack answers: what a packet or a call adds to the history, segment by segment. */
module TcpAnswers {
  import opened Bytes
  import opened Tcp
  import opened TcpDemux

  /** One attempt to send exactly this segment. */
  predicate Tried(o: Obs, i: nat, seq_num: u32, ack_num: u32, flags: u8, data: seq<u8>, who: Tuple) {
    o == CraftFailed(i) || o == Emitted(i, seq_num, ack_num, flags, data, who)
  }

  // ---- reading a packet ---------------------------------------------------------

  /** A segment made of a header of k words and d carries d. */
  lemma SegmentData(p: Packet, k: nat, header: seq<u8>, d: seq<u8>)
    requires k < 16 && |header| == 4 * k && p.payload == header + d && p.offset_flags / 0x1000 == k
    ensures p.Data() == d
  {
  }

  /** A packet cut off within its header carries nothing. */
  lemma HeaderOnly(p: Packet)
    requires |p.payload| <= 4 * (p.offset_flags / 0x1000)
    ensures p.Data() == []
  {
  }

  /** The flags are bits of the low byte of the offset word: FIN is bit 0, SYN 1, RST 2 and ACK 4. */
  lemma FlagBits(p: Packet)
    ensures p.Has(FIN) <==> p.offset_flags % 2 == 1
    ensures p.Has(SYN) <==> p.offset_flags % 4 >= 2
    ensures p.Has(RST) <==> p.offset_flags % 8 >= 4
    ensures p.Has(ACK) <==> p.offset_flags % 0x20 >= 0x10
  {
    var q, f := p.offset_flags / 0x100, p.Flags();
    assert p.offset_flags == 0x100 * q + f;
    Mod2(0x80 * q, f);
    Mod4(0x40 * q, f);
    Mod8(0x20 * q, f);
    Mod32(8 * q, f);
    Bit1(f);
    Bit2(f);
    Bit4(f);
  }

  lemma Mod2(k: nat, f: nat)
    ensures (2 * k + f) % 2 == f % 2
  {
  }

  lemma Mod4(k: nat, f: nat)
    ensures (4 * k + f) % 4 == f % 4
  {
  }

  lemma Mod8(k: nat, f: nat)
    ensures (8 * k + f) % 8 == f % 8
  {
  }

  lemma Mod32(k: nat, f: nat)
    ensures (0x20 * k + f) % 0x20 == f % 0x20
  {
  }

  lemma Bit1(f: u8)
    ensures f / 2 % 2 == 1 <==> f % 4 >= 2
  {
    assert f == 4 * (f / 4) + f % 4;
  }

  lemma Bit2(f: u8)
    ensures f / 4 % 2 == 1 <==> f % 8 >= 4
  {
    assert f == 8 * (f / 8) + f % 8;
  }

  lemma Bit4(f: u8)
    ensures f / 0x10 % 2 == 1 <==> f % 0x20 >= 0x10
  {
    assert f == 0x20 * (f / 0x20) + f % 0x20;
  }

  lemma AddIs(a: u32, b: u32)
    ensures Add32(a, b) == (a + b) % M32
  {
    if a + b < M32 {
      WrapUnique(a + b, 0, a + b);
    } else {
      WrapUnique(a + b, 1, a + b - M32);
    }
  }

  // ---- the loop up to the slot concerned --------------------------------------------

  /** No slot before i has anything to do with p. */
  predicate Passes(socks: seq<Socket>, p: Packet, k: nat, i: nat) {
    Reached(socks, p, k, i) && forall j :: k <= j < i ==> !OfConnection(socks[j], p)
  }

  lemma {:induction false} Skips(kernel: nat -> bool, n: Net, p: Packet, k: nat, i: nat)
    requires |n.socks| == MAX_SOCKETS && p.Valid() && Passes(n.socks, p, k, i)
    ensures OnPacket(kernel, n, p, k) == OnPacket(kernel, n, p, i)
    decreases i - k
  {
    if k < i {
      Skips(kernel, n, p, k + 1, i);
    }
  }

  /** With distinct tuples the slots before the owner are passed once none of them stops the loop. */
  lemma OwnerPassed(n: Net, p: Packet, i: nat)
    requires |n.socks| == MAX_SOCKETS && Distinct(n) && Reached(n.socks, p, 0, i) && Owns(n.socks[i], p)
    ensures Passes(n.socks, p, 0, i)
  {
    forall j | 0 <= j < i ensures !OfConnection(n.socks[j], p) {
      assert OfConnection(n.socks[j], p) ==> SameTuple(n.socks[j], n.socks[i]);
    }
  }

  // ---- a SYN ----------------------------------------------------------------------

  /** A SYN to a listener takes the first free slot for its peer and is answered from the address and port it came to by
      SYN and ACK, numbered 0 and acknowledging the SYN; nothing else changes. */
  lemma SynAnswered(kernel: nat -> bool, n: Net, p: Packet, l: nat, j: nat)
    requires |n.socks| == MAX_SOCKETS && p.Valid() && Passes(n.socks, p, 0, l)
    requires Listens(n.socks[l], p.dest_port) && p.Has(SYN) && j == FreeSlot(n.socks, 0) && j < MAX_SOCKETS
    ensures var m := OnPacket(kernel, n, p, 0);
            var who := Tuple(p.dst_ip, p.src_ip, p.dest_port, p.source_port);
            var ack := (p.seq_num + 1) % M32;
            && OnlySlot(n, m, j)
            && m.socks[j] == Socket(j, Established, p.dest_port, p.source_port, p.dst_ip, p.src_ip,
                                    n.socks[j].rx_buffer, n.socks[j].rx_len, true, 1, ack)
            && |m.trace| == |n.trace| + 2 && n.trace <= m.trace
            && m.trace[|n.trace|] == Accepted(j, p.seq_num, who)
            && Tried(m.trace[|n.trace| + 1], j, 0, ack, 0x12, [], who)
  {
    Skips(kernel, n, p, 0, l);
    SynOpens(kernel, n, p, l);
    OpenIs(kernel, n, p, j);
    hide OnPacket, PassiveOpen, OnlySlot, Tried, FreeSlot, Reached;
  }

  lemma OpenIs(kernel: nat -> bool, n: Net, p: Packet, j: nat)
    requires |n.socks| == MAX_SOCKETS && j == FreeSlot(n.socks, 0) && j < MAX_SOCKETS
    ensures var m := PassiveOpen(kernel, n, p);
            var who := Tuple(p.dst_ip, p.src_ip, p.dest_port, p.source_port);
            var ack := (p.seq_num + 1) % M32;
            && OnlySlot(n, m, j)
            && m.socks[j] == Socket(j, Established, p.dest_port, p.source_port, p.dst_ip, p.src_ip,
                                    n.socks[j].rx_buffer, n.socks[j].rx_len, true, 1, ack)
            && |m.trace| == |n.trace| + 2 && n.trace <= m.trace
            && m.trace[|n.trace|] == Accepted(j, p.seq_num, who)
            && Tried(m.trace[|n.trace| + 1], j, 0, ack, 0x12, [], who)
  {
    AddIs(p.seq_num, 1);
    hide Add32, FreeSlot;
  }

  lemma SynOpens(kernel: nat -> bool, n: Net, p: Packet, l: nat)
    requires |n.socks| == MAX_SOCKETS && p.Valid() && l < MAX_SOCKETS && Listens(n.socks[l], p.dest_port) && p.Has(SYN)
    ensures OnPacket(kernel, n, p, l) == PassiveOpen(kernel, n, p)
  {
  }

  /** With every slot used it is dropped. */
  lemma SynDropped(kernel: nat -> bool, n: Net, p: Packet, l: nat)
    requires |n.socks| == MAX_SOCKETS && p.Valid() && Passes(n.socks, p, 0, l)
    requires Listens(n.socks[l], p.dest_port) && p.Has(SYN) && forall j :: 0 <= j < MAX_SOCKETS ==> n.socks[j].used
    ensures OnPacket(kernel, n, p, 0) == n
  {
    Skips(kernel, n, p, 0, l);
    SynOpens(kernel, n, p, l);
  }

  // ---- the peer of a connecting slot ---------------------------------------------------

  /** The answer to our SYN establishes the connection, with the address it came to as ours, and is answered by a bare
      ACK of the peer's SYN. */
  lemma SynAckAnswered(kernel: nat -> bool, n: Net, p: Packet, i: nat)
    requires |n.socks| == MAX_SOCKETS && p.Valid() && Distinct(n) && Reached(n.socks, p, 0, i)
    requires Owns(n.socks[i], p) && n.socks[i].state == SynSent && p.Has(SYN) && p.Has(ACK) && !p.Has(RST)
    ensures var m, s := OnPacket(kernel, n, p, 0), n.socks[i];
            var who := Tuple(p.dst_ip, p.src_ip, p.dest_port, p.source_port);
            var ack := (p.seq_num + 1) % M32;
            && OnlySlot(n, m, i) && m.socks[i] == s.(local_ip := p.dst_ip, ack_num := ack, state := Established)
            && |m.trace| == |n.trace| + 2 && n.trace <= m.trace
            && m.trace[|n.trace|] == Answered(i, p.seq_num, p.dst_ip)
            && Tried(m.trace[|n.trace| + 1], i, s.seq_num, ack, 0x10, [], who)
  {
    OwnerPassed(n, p, i);
    Skips(kernel, n, p, 0, i);
    AnswerIs(kernel, n, p, i);
    SynAckEnters(kernel, n, p, i);
    hide OnPacket, Distinct;
  }

  lemma SynAckEnters(kernel: nat -> bool, n: Net, p: Packet, i: nat)
    requires |n.socks| == MAX_SOCKETS && i < MAX_SOCKETS && p.Valid()
    requires Owns(n.socks[i], p) && n.socks[i].state == SynSent && p.Has(SYN) && p.Has(ACK) && !p.Has(RST)
    ensures OnPacket(kernel, n, p, i) == Answer(kernel, n, i, p)
  {
  }

  lemma AnswerIs(kernel: nat -> bool, n: Net, p: Packet, i: nat)
    requires |n.socks| == MAX_SOCKETS && i < MAX_SOCKETS
    ensures var m, s := Answer(kernel, n, i, p), n.socks[i];
            var ack := (p.seq_num + 1) % M32;
            && OnlySlot(n, m, i) && m.socks[i] == s.(local_ip := p.dst_ip, ack_num := ack, state := Established)
            && |m.trace| == |n.trace| + 2 && n.trace <= m.trace
            && m.trace[|n.trace|] == Answered(i, p.seq_num, p.dst_ip)
            && Tried(m.trace[|n.trace| + 1], i, s.seq_num, ack, 0x10, [], Tuple(p.dst_ip, s.remote_ip, s.local_port, s.remote_port))
  {
    AddIs(p.seq_num, 1);
    AddIs(n.socks[i].seq_num, 0);
    assert n.socks[i].seq_num % M32 == n.socks[i].seq_num;
    hide Add32;
  }

  /** Anything else from the peer, but for a RST, is ignored. */
  lemma ConnectingWaits(kernel: nat -> bool, n: Net, p: Packet, i: nat)
    requires |n.socks| == MAX_SOCKETS && p.Valid() && Distinct(n) && FreshSyn(n, p) && Reached(n.socks, p, 0, i)
    requires Owns(n.socks[i], p) && n.socks[i].state == SynSent && !(p.Has(SYN) && p.Has(ACK)) && !p.Has(RST)
    ensures OnPacket(kernel, n, p, 0) == n
  {
    OwnerPassed(n, p, i);
    Skips(kernel, n, p, 0, i);
    OwnerOnly(kernel, n, p, i);
  }

  // ---- a RST ------------------------------------------------------------------------------

  /** A RST frees the slot it reaches without a word: a connection's from its peer, a connecting one's from anybody. */
  lemma ResetObeyed(kernel: nat -> bool, n: Net, p: Packet, i: nat)
    requires |n.socks| == MAX_SOCKETS && p.Valid() && Passes(n.socks, p, 0, i) && p.Has(RST)
    requires OfConnection(n.socks[i], p)
      || (n.socks[i].used && n.socks[i].state == SynSent && n.socks[i].local_port == p.dest_port)
    ensures var m := OnPacket(kernel, n, p, 0);
            && OnlySlot(n, m, i) && m.socks[i] == n.socks[i].(used := false, state := Closed)
            && m.trace == n.trace + [Freed(i)]
  {
    Skips(kernel, n, p, 0, i);
  }

  // ---- the peer of an established slot ---------------------------------------------------

  predicate Conversing(n: Net, p: Packet, i: nat) {
    |n.socks| == MAX_SOCKETS && p.Valid() && Reached(n.socks, p, 0, i) && OfConnection(n.socks[i], p) && !p.Has(RST)
  }

  lemma OwnerHandles(kernel: nat -> bool, n: Net, p: Packet, i: nat)
    requires Conversing(n, p, i) && Distinct(n) && FreshSyn(n, p)
    ensures OnPacket(kernel, n, p, 0) == InConnection(kernel, n, i, p)
  {
    OwnerPassed(n, p, i);
    Skips(kernel, n, p, 0, i);
    OwnerOnly(kernel, n, p, i);
  }

  /** d was stored at slot i, as far as the buffer goes, and answered by one bare ACK of its end. */
  ghost predicate Stored(n: Net, m: Net, i: nat, seq_num: u32, d: seq<u8>)
    requires i < |n.socks|
  {
    var s := n.socks[i];
    var ack := (seq_num + |d|) % M32;
    var room := if |d| < RX_BUFFER_SIZE then |d| else RX_BUFFER_SIZE;
    && |d| < M32 && OnlySlot(n, m, i)
    && m.socks[i] == s.(rx_buffer := m.socks[i].rx_buffer, rx_len := |d|, ack_num := ack)
    && (|s.rx_buffer| == RX_BUFFER_SIZE ==> m.socks[i].rx_buffer == d[..room] + s.rx_buffer[room..])
    && |m.trace| == |n.trace| + 2 && n.trace <= m.trace
    && m.trace[|n.trace|] == Received(i, seq_num, d)
    && Tried(m.trace[|n.trace| + 1], i, s.seq_num, ack, 0x10, [], Tuple(s.local_ip, s.remote_ip, s.local_port, s.remote_port))
  }

  lemma DataAnswered(kernel: nat -> bool, n: Net, p: Packet, i: nat)
    requires Conversing(n, p, i) && Distinct(n) && FreshSyn(n, p) && p.Data() != [] && !p.Has(FIN)
    ensures Stored(n, OnPacket(kernel, n, p, 0), i, p.seq_num, p.Data())
  {
    DataEnters(kernel, n, p, i);
    ReceiveIs(kernel, n, p, i);
  }

  lemma DataEnters(kernel: nat -> bool, n: Net, p: Packet, i: nat)
    requires Conversing(n, p, i) && Distinct(n) && FreshSyn(n, p) && p.Data() != [] && !p.Has(FIN)
    ensures i < MAX_SOCKETS && OnPacket(kernel, n, p, 0) == Receive(kernel, n, i, p)
  {
    hide OnPacket, Packet.Data, Receive, FreshSyn;
    OwnerHandles(kernel, n, p, i);
  }

  lemma ReceiveIs(kernel: nat -> bool, n: Net, p: Packet, i: nat)
    requires |n.socks| == MAX_SOCKETS && i < MAX_SOCKETS && p.Valid()
    ensures Stored(n, Receive(kernel, n, i, p), i, p.seq_num, p.Data())
  {
    assert |p.Data()| < M32;
    hide Packet.Data, Filled;
    if |n.socks[i].rx_buffer| == RX_BUFFER_SIZE {
      Stores(n.socks[i].rx_buffer, p.Data());
    }
    AddIs(p.seq_num, |p.Data()|);
    AddIs(n.socks[i].seq_num, 0);
    assert n.socks[i].seq_num % M32 == n.socks[i].seq_num;
    hide Add32;
  }

  /** Acknowledging a FIN and freeing the slot. */
  lemma FinIs(kernel: nat -> bool, n: Net, i: nat)
    requires |n.socks| == MAX_SOCKETS && i < MAX_SOCKETS
    ensures var m, s := Free(Send(kernel, n, i, [], ACK), i), n.socks[i];
            && OnlySlot(n, m, i) && !m.socks[i].used && m.socks[i].state == Closed
            && |m.trace| == |n.trace| + 2 && n.trace <= m.trace && m.trace[|n.trace| + 1] == Freed(i)
            && Tried(m.trace[|n.trace|], i, s.seq_num, s.ack_num, 0x10, [], Tuple(s.local_ip, s.remote_ip, s.local_port, s.remote_port))
  {
  }

  lemma Stores(buf: seq<u8>, d: seq<u8>)
    requires |buf| == RX_BUFFER_SIZE
    ensures var room := if |d| < RX_BUFFER_SIZE then |d| else RX_BUFFER_SIZE;
            Filled(buf, d) == d[..room] + buf[room..]
  {
  }

  /** A FIN is answered by a bare ACK of what has arrived, after the ACK of its own data if it brings any, and the slot
      is freed. */
  lemma FinAnswered(kernel: nat -> bool, n: Net, p: Packet, i: nat)
    requires Conversing(n, p, i) && Distinct(n) && FreshSyn(n, p) && p.Has(FIN)
    ensures var m, s, d := OnPacket(kernel, n, p, 0), n.socks[i], p.Data();
            var who := Tuple(s.local_ip, p.src_ip, p.dest_port, p.source_port);
            var ack := if d == [] then s.ack_num else (p.seq_num + |d|) % M32;
            && OnlySlot(n, m, i) && !m.socks[i].used && m.socks[i].state == Closed
            && |m.trace| == |n.trace| + (if d == [] then 2 else 4) && n.trace <= m.trace
            && (d != [] ==> m.trace[|n.trace|] == Received(i, p.seq_num, d)
                            && Tried(m.trace[|n.trace| + 1], i, s.seq_num, ack, 0x10, [], who))
            && Tried(m.trace[|m.trace| - 2], i, s.seq_num, ack, 0x10, [], who)
            && m.trace[|m.trace| - 1] == Freed(i)
  {
    hide OnPacket, Packet.Data, Send, Filled;
    OwnerHandles(kernel, n, p, i);
    if p.Data() != [] {
      hide Receive;
      ReceiveIs(kernel, n, p, i);
      FinIs(kernel, Receive(kernel, n, i, p), i);
    } else {
      FinIs(kernel, n, i);
    }
  }

  /** A segment with neither data nor FIN changes nothing and gets no answer. */
  lemma BareSegmentIgnored(kernel: nat -> bool, n: Net, p: Packet, i: nat)
    requires Conversing(n, p, i) && Distinct(n) && FreshSyn(n, p) && p.Data() == [] && !p.Has(FIN)
    ensures OnPacket(kernel, n, p, 0) == n
  {
    OwnerHandles(kernel, n, p, i);
  }

  // ---- calls --------------------------------------------------------------------------------

  /** connect: a SYN numbered 0 that acknowledges nothing, after which the slot holds 1. */
  lemma ConnectSends(kernel: nat -> bool, n: Net, j: nat, rip: Ip4, rport: u16, lport: u16, lip: Ip4)
    requires |n.socks| == MAX_SOCKETS && j < MAX_SOCKETS
    ensures var m := Connect(kernel, n, j, rip, rport, lport, lip);
            && OnlySlot(n, m, j)
            && m.socks[j] == Socket(j, SynSent, lport, rport, lip, rip, n.socks[j].rx_buffer, n.socks[j].rx_len, true, 1, 0)
            && |m.trace| == |n.trace| + 2 && n.trace <= m.trace
            && m.trace[|n.trace|] == Connecting(j, Tuple(lip, rip, lport, rport))
            && Tried(m.trace[|n.trace| + 1], j, 0, 0, 0x02, [], Tuple(lip, rip, lport, rport))
  {
  }

  /** close: one FIN and ACK on a connection, one RST on an unanswered one, nothing on any other slot; then it is freed. */
  lemma CloseSends(kernel: nat -> bool, n: Net, i: nat)
    requires |n.socks| == MAX_SOCKETS && i < MAX_SOCKETS
    ensures var m, s := Close(kernel, n, i), n.socks[i];
            var who := Tuple(s.local_ip, s.remote_ip, s.local_port, s.remote_port);
            && OnlySlot(n, m, i) && !m.socks[i].used && m.socks[i].state == Closed
            && n.trace <= m.trace && m.trace[|m.trace| - 1] == Freed(i)
            && match s.state
               case Established => |m.trace| == |n.trace| + 2 && Tried(m.trace[|n.trace|], i, s.seq_num, s.ack_num, 0x11, [], who)
               case FinWait => |m.trace| == |n.trace| + 2 && Tried(m.trace[|n.trace|], i, s.seq_num, s.ack_num, 0x11, [], who)
               case SynSent => |m.trace| == |n.trace| + 2 && Tried(m.trace[|n.trace|], i, s.seq_num, s.ack_num, 0x04, [], who)
               case Listening => |m.trace| == |n.trace| + 1
               case Closed => |m.trace| == |n.trace| + 1
  {
  }

  /** write: one attempt with the data and ACK; the number grows by the data exactly if the segment went out. */
  lemma WriteSends(kernel: nat -> bool, n: Net, i: nat, data: seq<u8>)
    requires |n.socks| == MAX_SOCKETS && i < MAX_SOCKETS && |data| < M32
    ensures var m, s := Send(kernel, n, i, data, ACK), n.socks[i];
            && |m.trace| == |n.trace| + 1 && n.trace <= m.trace
            && Tried(m.trace[|n.trace|], i, s.seq_num, s.ack_num, 0x10, data, Tuple(s.local_ip, s.remote_ip, s.local_port, s.remote_port))
            && OnlySlot(n, m, i)
            && m.socks[i] == s.(seq_num := if m.trace[|n.trace|].Emitted? then (s.seq_num + |data|) % M32 else s.seq_num)
  {
    AddIs(n.socks[i].seq_num, |data|);
    hide Add32;
  }
}
