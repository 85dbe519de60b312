/** The TCP socket table of net.c as a state machine: every operation as a function on the table and a
    history of what was observable (connections opened, segments emitted, data accepted and read). */
module Tcp {
  import opened Bytes

  const MAX_SOCKETS: nat := 8
  const RX_BUFFER_SIZE: nat := 1024
  const FIN: u8 := 0x01
  const SYN: u8 := 0x02
  const RST: u8 := 0x04
  const ACK: u8 := 0x10

  datatype SocketState = Closed | Listening | SynSent | Established | FinWait

  datatype Socket = Socket(id: u32, state: SocketState, local_port: u16, remote_port: u16, local_ip: Ip4, remote_ip: Ip4,
                           rx_buffer: seq<u8>, rx_len: u32, used: bool, seq_num: u32, ack_num: u32)

  /** A parsed segment as on_tcp_packet receives it: payload is the TCP packet from its header on. */
  datatype Packet = Packet(src_ip: Ip4, dst_ip: Ip4, source_port: u16, dest_port: u16, seq_num: u32,
                           offset_flags: u16, payload: seq<u8>)
  {
    predicate Valid() { |payload| < M32 }

    function Flags(): u8 { offset_flags % 0x100 }

    predicate Has(flag: u8)
      requires flag > 0
    {
      Flags() / flag % 2 == 1
    }

    /** The bytes after the TCP header; none when the packet is no longer than its header. */
    function Data(): seq<u8> {
      var hdr := offset_flags / 0x1000 * 4;
      if |payload| > hdr then payload[hdr..] else []
    }

    /** The packet comes from the peer that s is connected, or connecting, to. */
    predicate From(s: Socket) {
      s.remote_ip == src_ip && s.remote_port == source_port
    }
  }

  /** The two ends of a connection, as a socket names them. */
  datatype Tuple = Tuple(local_ip: Ip4, remote_ip: Ip4, local_port: u16, remote_port: u16)

  datatype Obs =
    | Connecting(slot: nat, who: Tuple)
    | Accepted(slot: nat, isn: u32, who: Tuple)
    | Answered(slot: nat, isn: u32, local_ip: Ip4)
    | Emitted(slot: nat, seq_num: u32, ack_num: u32, flags: u8, data: seq<u8>, who: Tuple)
    | CraftFailed(slot: nat)
    | Received(slot: nat, seq_num: u32, data: seq<u8>)
    | Delivered(slot: nat, data: seq<u8>)
    | Freed(slot: nat)
  {
    /** A new connection starts in the slot. */
    predicate Opens() { Connecting? || Accepted? }
  }

  datatype Net = Net(socks: seq<Socket>, trace: seq<Obs>)
  {
    predicate Sized() {
      |socks| == MAX_SOCKETS && forall i :: 0 <= i < MAX_SOCKETS ==> |socks[i].rx_buffer| == RX_BUFFER_SIZE
    }

    function With(i: nat, s: Socket): Net
      requires i < |socks|
    {
      Net(socks[i := s], trace)
    }

    function Note(o: Obs): Net {
      Net(socks, trace + [o])
    }
  }

  // ---- operations --------------------------------------------------------

  /** The segment the socket in slot i sends. */
  function Emission(i: nat, s: Socket, flags: u8, data: seq<u8>): Obs {
    Emitted(i, s.seq_num, s.ack_num, flags, data, Tuple(s.local_ip, s.remote_ip, s.local_port, s.remote_port))
  }

  /** send_tcp_packet: kernel(k) tells whether the crafting calls made after k observations succeed. */
  function Send(kernel: nat -> bool, n: Net, i: nat, data: seq<u8>, flags: u8): Net
    requires i < |n.socks| && |data| < M32
  {
    var s := n.socks[i];
    if kernel(|n.trace|) then
      n.With(i, s.(seq_num := Add32(s.seq_num, |data|))).Note(Emission(i, s, flags, data))
    else
      n.Note(CraftFailed(i))
  }

  function Free(n: Net, i: nat): Net
    requires i < |n.socks|
  {
    n.With(i, n.socks[i].(used := false, state := Closed)).Note(Freed(i))
  }

  /** First unused slot from i on, or the table size. */
  function FreeSlot(socks: seq<Socket>, i: nat): (j: nat)
    requires i <= |socks|
    ensures i <= j <= |socks|
    ensures j < |socks| ==> !socks[j].used
    ensures forall k :: i <= k < j ==> socks[k].used
    decreases |socks| - i
  {
    if i == |socks| || !socks[i].used then i else FreeSlot(socks, i + 1)
  }

  /** alloc_socket on a free slot. */
  function Taken(s: Socket, j: u32): Socket {
    s.(used := true, id := j)
  }

  function PassiveOpen(kernel: nat -> bool, n: Net, p: Packet): Net
    requires |n.socks| == MAX_SOCKETS
  {
    var j := FreeSlot(n.socks, 0);
    if j == MAX_SOCKETS then n
    else
      var s := Taken(n.socks[j], j).(remote_ip := p.src_ip, local_ip := p.dst_ip, local_port := p.dest_port,
                                     remote_port := p.source_port, state := Established,
                                     seq_num := 0, ack_num := Add32(p.seq_num, 1));
      var who := Tuple(p.dst_ip, p.src_ip, p.dest_port, p.source_port);
      var m := Send(kernel, n.With(j, s).Note(Accepted(j, p.seq_num, who)), j, [], SYN + ACK);
      m.With(j, m.socks[j].(seq_num := 1))
  }

  function Answer(kernel: nat -> bool, n: Net, i: nat, p: Packet): Net
    requires i < |n.socks|
  {
    var s := n.socks[i].(local_ip := p.dst_ip, ack_num := Add32(p.seq_num, 1), state := Established);
    Send(kernel, n.With(i, s).Note(Answered(i, p.seq_num, p.dst_ip)), i, [], ACK)
  }

  function Filled(buf: seq<u8>, data: seq<u8>): (r: seq<u8>)
    ensures |r| == |buf|
  {
    if |data| <= |buf| then data + buf[|data|..] else data[..|buf|]
  }

  function Receive(kernel: nat -> bool, n: Net, i: nat, p: Packet): Net
    requires i < |n.socks| && p.Valid()
  {
    var s := n.socks[i].(rx_buffer := Filled(n.socks[i].rx_buffer, p.Data()), rx_len := |p.Data()|,
                         ack_num := Add32(p.seq_num, |p.Data()|));
    Send(kernel, n.With(i, s).Note(Received(i, p.seq_num, p.Data())), i, [], ACK)
  }

  function InConnection(kernel: nat -> bool, n: Net, i: nat, p: Packet): Net
    requires i < |n.socks| && p.Valid()
  {
    var m := if p.Data() != [] then Receive(kernel, n, i, p) else n;
    if p.Has(FIN) then Free(Send(kernel, m, i, [], ACK), i) else m
  }

  /** One iteration of on_tcp_packet's loop; the flag says whether the function returns. */
  function Handle(kernel: nat -> bool, n: Net, p: Packet, i: nat): (r: (Net, bool))
    requires |n.socks| == MAX_SOCKETS && i < MAX_SOCKETS && p.Valid()
    ensures |r.0.socks| == MAX_SOCKETS
  {
    var s := n.socks[i];
    if !s.used || s.local_port != p.dest_port then (n, false)
    else if s.state == Listening && p.Has(SYN) then (PassiveOpen(kernel, n, p), true)
    else if s.state == SynSent && p.Has(RST) then (Free(n, i), true)
    else if s.state == SynSent && p.Has(SYN) && p.Has(ACK) && p.From(s) then (Answer(kernel, n, i, p), true)
    else if s.state == Established && p.From(s) then
      if p.Has(RST) then (Free(n, i), true) else (InConnection(kernel, n, i, p), false)
    else (n, false)
  }

  function OnPacket(kernel: nat -> bool, n: Net, p: Packet, i: nat): (r: Net)
    requires |n.socks| == MAX_SOCKETS && i <= MAX_SOCKETS && p.Valid()
    ensures |r.socks| == MAX_SOCKETS
    decreases MAX_SOCKETS - i
  {
    if i == MAX_SOCKETS then n
    else
      var (m, stop) := Handle(kernel, n, p, i);
      if stop then m else OnPacket(kernel, m, p, i + 1)
  }

  /** tcp_connect on the slot alloc_socket found. */
  function Connect(kernel: nat -> bool, n: Net, j: nat, remote_ip: Ip4, remote_port: u16, local_port: u16, local_ip: Ip4): Net
    requires j < |n.socks| < M32
  {
    var s := Taken(n.socks[j], j).(remote_ip := remote_ip, local_ip := local_ip, remote_port := remote_port,
                                   local_port := local_port, seq_num := 0, ack_num := 0, state := SynSent);
    var who := Tuple(local_ip, remote_ip, local_port, remote_port);
    var m := Send(kernel, n.With(j, s).Note(Connecting(j, who)), j, [], SYN);
    m.With(j, m.socks[j].(seq_num := 1))
  }

  /** What irc_window.cpp does for an unanswered SYN. */
  function ResendSyn(kernel: nat -> bool, n: Net, i: nat): Net
    requires i < |n.socks|
  {
    var m := Send(kernel, n.With(i, n.socks[i].(seq_num := 0)), i, [], SYN);
    m.With(i, m.socks[i].(seq_num := 1))
  }

  function Take(s: Socket, maxlen: u32): seq<u8>
    requires (if s.rx_len < maxlen then s.rx_len else maxlen) <= |s.rx_buffer|
  {
    s.rx_buffer[..if s.rx_len < maxlen then s.rx_len else maxlen]
  }

  function Read(n: Net, i: nat, maxlen: u32): Net
    requires i < |n.socks| && (if n.socks[i].rx_len < maxlen then n.socks[i].rx_len else maxlen) <= |n.socks[i].rx_buffer|
  {
    n.With(i, n.socks[i].(rx_len := 0)).Note(Delivered(i, Take(n.socks[i], maxlen)))
  }

  function Close(kernel: nat -> bool, n: Net, i: nat): Net
    requires i < |n.socks|
  {
    var s := n.socks[i];
    var m := if s.state == Established || s.state == FinWait then Send(kernel, n, i, [], FIN + ACK)
             else if s.state == SynSent then Send(kernel, n, i, [], RST)
             else n;
    Free(m, i)
  }

  // ---- runs ---------------------------------------------------------------

  datatype Event =
    | PacketIn(p: Packet)
    | ConnectTo(remote_ip: Ip4, remote_port: u16, local_port: u16, local_ip: Ip4)
    | SocketTcp4
    | Bind(slot: nat, port: u16)
    | Listen(slot: nat)
    | ReadFrom(slot: nat, maxlen: u32)
    | WriteTo(slot: nat, data: seq<u8>)
    | CloseSlot(slot: nat)
    | ResendSynOn(slot: nat)

  /** How the programs use the API: bind and listen on a fresh socket, write on an established one with what fits
      the packet buffer, resend a SYN while it is unanswered, read into a buffer no larger than what is stored. */
  predicate Enabled(n: Net, e: Event)
    requires n.Sized()
  {
    match e
    case PacketIn(p) => p.Valid()
    case ConnectTo(_, _, _, _) => true
    case SocketTcp4 => true
    case Bind(i, _) => i < MAX_SOCKETS && n.socks[i].used && n.socks[i].state == Closed
    case Listen(i) => i < MAX_SOCKETS && n.socks[i].used && n.socks[i].state == Closed
    case ReadFrom(i, maxlen) => i < MAX_SOCKETS && (n.socks[i].rx_len <= RX_BUFFER_SIZE || maxlen <= RX_BUFFER_SIZE)
    case WriteTo(i, data) => i < MAX_SOCKETS && n.socks[i].state == Established && |data| <= 1460
    case CloseSlot(i) => i < MAX_SOCKETS
    case ResendSynOn(i) => i < MAX_SOCKETS && n.socks[i].state == SynSent
  }

  function Step(kernel: nat -> bool, n: Net, e: Event): Net
    requires n.Sized() && Enabled(n, e)
  {
    match e
    case PacketIn(p) => OnPacket(kernel, n, p, 0)
    case ConnectTo(rip, rport, lport, lip) =>
      var j := FreeSlot(n.socks, 0);
      if j == MAX_SOCKETS then n else Connect(kernel, n, j, rip, rport, lport, lip)
    case SocketTcp4 =>
      var j := FreeSlot(n.socks, 0);
      if j == MAX_SOCKETS then n else n.With(j, Taken(n.socks[j], j).(state := Closed))
    case Bind(i, port) => n.With(i, n.socks[i].(local_port := port))
    case Listen(i) => n.With(i, n.socks[i].(state := Listening))
    case ReadFrom(i, maxlen) => Read(n, i, maxlen)
    case WriteTo(i, data) => Send(kernel, n, i, data, ACK)
    case CloseSlot(i) => Close(kernel, n, i)
    case ResendSynOn(i) => ResendSyn(kernel, n, i)
  }

  function ZeroSocket(): Socket {
    Socket(0, Closed, 0, 0, [0, 0, 0, 0], [0, 0, 0, 0], seq(RX_BUFFER_SIZE, i => 0), 0, false, 0, 0)
  }

  /** The zeroed static table. */
  function Init(): (n: Net)
    ensures n.Sized()
  {
    Net(seq(MAX_SOCKETS, i => ZeroSocket()), [])
  }

  lemma StepSized(kernel: nat -> bool, n: Net, e: Event)
    requires n.Sized() && Enabled(n, e)
    ensures Step(kernel, n, e).Sized()
  {
    if e.PacketIn? {
      OnPacketSized(kernel, n, e.p, 0);
    }
  }

  lemma {:induction false} OnPacketSized(kernel: nat -> bool, n: Net, p: Packet, i: nat)
    requires n.Sized() && i <= MAX_SOCKETS && p.Valid()
    ensures OnPacket(kernel, n, p, i).Sized()
    decreases MAX_SOCKETS - i
  {
    if i < MAX_SOCKETS {
      OnPacketSized(kernel, Handle(kernel, n, p, i).0, p, i + 1);
    }
  }

  /** The events can happen one after the other from n. */
  ghost predicate CanRun(kernel: nat -> bool, n: Net, es: seq<Event>)
    requires n.Sized()
    decreases |es|
  {
    es == [] || (Enabled(n, es[0]) && (StepSized(kernel, n, es[0]); CanRun(kernel, Step(kernel, n, es[0]), es[1..])))
  }

  ghost function Run(kernel: nat -> bool, n: Net, es: seq<Event>): (r: Net)
    requires n.Sized() && CanRun(kernel, n, es)
    ensures r.Sized()
    decreases |es|
  {
    if es == [] then n else (StepSized(kernel, n, es[0]); Run(kernel, Step(kernel, n, es[0]), es[1..]))
  }
}
