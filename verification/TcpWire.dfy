/** From the history of the socket table to the wire: every segment a run emits reaches the peer as what it is. */
module TcpWire {
  import opened Bytes
  import opened Tcp
  import TcpRuns
  import TcpSegments
  import Transmit

  /** The socket an emission came from, as send_tcp_packet read it. */
  function EndpointOf(o: Obs): Transmit.Endpoint
    requires o.Emitted?
  {
    Transmit.Endpoint(o.who.local_ip, o.who.remote_ip, o.who.local_port, o.who.remote_port, o.seq_num, o.ack_num)
  }

  /** The flag sets the stack sends. */
  const FLAG_SETS: set<u8> := {SYN, SYN + ACK, ACK, FIN + ACK, RST}

  predicate Ordinary(o: Obs) {
    o.Emitted? ==> o.flags in FLAG_SETS && |o.data| <= 1460
  }

  ghost predicate AllOrdinary(t: seq<Obs>) {
    forall q :: 0 <= q < |t| ==> Ordinary(t[q])
  }

  lemma SendOrdinary(kernel: nat -> bool, n: Net, i: nat, data: seq<u8>, flags: u8)
    requires AllOrdinary(n.trace) && i < |n.socks| && |data| <= 1460 && flags in FLAG_SETS
    ensures AllOrdinary(Send(kernel, n, i, data, flags).trace)
  {
  }

  lemma InConnectionOrdinary(kernel: nat -> bool, n: Net, i: nat, p: Packet)
    requires i < |n.socks| && p.Valid() && AllOrdinary(n.trace)
    ensures AllOrdinary(InConnection(kernel, n, i, p).trace)
  {
    assert ACK in FLAG_SETS;
    assert p.Data() != [] ==> AllOrdinary(Receive(kernel, n, i, p).trace);
  }

  lemma HandleOrdinary(kernel: nat -> bool, n: Net, p: Packet, i: nat)
    requires |n.socks| == MAX_SOCKETS && i < MAX_SOCKETS && p.Valid() && AllOrdinary(n.trace)
    ensures AllOrdinary(Handle(kernel, n, p, i).0.trace)
  {
    hide InConnection;
    assert ACK in FLAG_SETS && SYN + ACK in FLAG_SETS;
    InConnectionOrdinary(kernel, n, i, p);
  }

  lemma {:induction false} OnPacketOrdinary(kernel: nat -> bool, n: Net, p: Packet, i: nat)
    requires |n.socks| == MAX_SOCKETS && i <= MAX_SOCKETS && p.Valid() && AllOrdinary(n.trace)
    ensures AllOrdinary(OnPacket(kernel, n, p, i).trace)
    decreases MAX_SOCKETS - i
  {
    hide Handle, AllOrdinary;
    if i < MAX_SOCKETS {
      HandleOrdinary(kernel, n, p, i);
      OnPacketOrdinary(kernel, Handle(kernel, n, p, i).0, p, i + 1);
    }
  }

  lemma StepOrdinary(kernel: nat -> bool, n: Net, e: Event)
    requires n.Sized() && Enabled(n, e) && AllOrdinary(n.trace)
    ensures AllOrdinary(Step(kernel, n, e).trace)
  {
    hide OnPacket;
    assert FIN + ACK in FLAG_SETS && RST in FLAG_SETS && SYN in FLAG_SETS && ACK in FLAG_SETS;
    match e
    case PacketIn(p) => OnPacketOrdinary(kernel, n, p, 0);
    case WriteTo(i, data) => SendOrdinary(kernel, n, i, data, ACK);
    case _ =>
  }

  lemma {:induction false} RunOrdinary(kernel: nat -> bool, n: Net, es: seq<Event>)
    requires n.Sized() && CanRun(kernel, n, es) && AllOrdinary(n.trace)
    ensures AllOrdinary(Run(kernel, n, es).trace)
    decreases |es|
  {
    hide Step, Enabled, AllOrdinary;
    if es != [] {
      StepOrdinary(kernel, n, es[0]);
      StepSized(kernel, n, es[0]);
      RunOrdinary(kernel, Step(kernel, n, es[0]), es[1..]);
    }
  }

  /** The packet the driver emits for an observed segment, with the fields k of the crafting calls. */
  function OnWire(o: Obs, k: Transmit.Craft, my_ip: Ip4): (r: seq<u8>)
    requires o.Emitted? && |o.data| <= 1460
    ensures |r| >= 40
  {
    Transmit.PacketShape(EndpointOf(o), o.flags, o.data, k);
    Transmit.Emit(Transmit.Packet(EndpointOf(o), o.flags, o.data, k), my_ip)
  }

  /** Every segment of every run, against nothing but the history u before it: the packet on the wire goes from the
      local to the remote end that the connection was opened with, carries as sequence number 1 plus the bytes emitted
      before it (0 with SYN), acknowledges what had arrived, and has verifying checksums, its flags and its payload;
      exactly unless the peer is the driver's own address and not the local end's. */
  lemma EveryEmission(kernel: nat -> bool, es: seq<Event>, q: nat, k: Transmit.Craft, my_ip: Ip4)
    requires CanRun(kernel, Init(), es)
    requires q < |Run(kernel, Init(), es).trace| && Run(kernel, Init(), es).trace[q].Emitted?
    ensures var t := Run(kernel, Init(), es).trace;
            var u, o := t[..q], t[q];
            var who := TcpSegments.Who(u, o.slot);
            var number := if o.flags / SYN % 2 == 1 then 0 else (1 + |TcpRuns.Sent(u, o.slot)|) % M32;
            && who.Some? && |o.data| <= 1460
            && var e := Transmit.Endpoint(who.value.local_ip, who.value.remote_ip, who.value.local_port, who.value.remote_port,
                                          number, TcpSegments.Due(u, o.slot));
            && (Transmit.Delivers(OnWire(o, k, my_ip), e, o.flags, o.data) <==> e.remote_ip != my_ip || e.remote_ip == e.local_ip)
  {
    hide Transmit.Emit, Transmit.Packet, Transmit.Delivers, TcpSegments.Who, TcpSegments.Due;
    TcpRuns.SequenceAccounting(kernel, es);
    RunOrdinary(kernel, Init(), es);
    TcpSegments.EverySegment(kernel, es, q);
    var o := Run(kernel, Init(), es).trace[q];
    assert Ordinary(o);
    Transmit.TransmitExact(EndpointOf(o), o.flags, o.data, k, my_ip);
  }
}
