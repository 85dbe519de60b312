/** The socket table of net.c updated in place; every method is tied to its function in Tcp. A pointer to a socket
    is its index in the array. */
module TcpStack {
  import opened Bytes
  import opened Tcp
  import TcpRuns

  class Stack {
    const sockets: array<Socket>
    /** Whether the crafting calls made after so many observations succeed. */
    const kernel: nat -> bool
    var trace: seq<Obs>

    ghost function Abs(): Net
      reads this, sockets
    {
      Net(sockets[..], trace)
    }

    ghost predicate Valid()
      reads this, sockets
    {
      sockets.Length == MAX_SOCKETS && Abs().Sized()
    }

    constructor (kernel: nat -> bool)
      ensures Valid() && fresh(sockets) && this.kernel == kernel && Abs() == Init()
    {
      sockets := new Socket[MAX_SOCKETS](i => ZeroSocket());
      this.kernel := kernel;
      trace := [];
    }

    method SendTcpPacket(i: nat, data: seq<u8>, flags: u8)
      requires Valid() && i < MAX_SOCKETS && |data| <= 1460
      modifies this`trace, sockets
      ensures Valid() && Abs() == Send(kernel, old(Abs()), i, data, flags)
    {
      var s := sockets[i];
      if !kernel(|trace|) {
        trace := trace + [CraftFailed(i)];
        return;
      }
      trace := trace + [Emission(i, s, flags, data)];
      sockets[i] := s.(seq_num := Add32(s.seq_num, |data|));
    }

    method AllocSocket() returns (sock: Option<nat>)
      requires Valid()
      modifies sockets
      ensures Valid() && trace == old(trace)
      ensures var j := FreeSlot(old(sockets[..]), 0);
              if j == MAX_SOCKETS then sock == None && sockets[..] == old(sockets[..])
              else sock == Some(j) && sockets[..] == old(sockets[..])[j := Taken(old(sockets[j]), j)]
    {
      var i := 0;
      while i < MAX_SOCKETS
        invariant 0 <= i <= MAX_SOCKETS && sockets[..] == old(sockets[..])
        invariant FreeSlot(sockets[..], 0) == FreeSlot(sockets[..], i)
      {
        if !sockets[i].used {
          sockets[i] := sockets[i].(used := true);
          sockets[i] := sockets[i].(id := i);
          return Some(i);
        }
        i := i + 1;
      }
      return None;
    }

    method FreeSocket(i: nat)
      requires Valid() && i < MAX_SOCKETS
      modifies this`trace, sockets
      ensures Valid() && Abs() == Free(old(Abs()), i)
    {
      sockets[i] := sockets[i].(used := false);
      sockets[i] := sockets[i].(state := Closed);
      trace := trace + [Freed(i)];
    }

    method SocketTcp4() returns (sock: Option<nat>)
      requires Valid()
      modifies sockets
      ensures Valid() && Abs() == Step(kernel, old(Abs()), Event.SocketTcp4)
      ensures sock == var j := FreeSlot(old(sockets[..]), 0); if j == MAX_SOCKETS then None else Some(j)
    {
      sock := AllocSocket();
      if sock.Some? {
        sockets[sock.value] := sockets[sock.value].(state := Closed);
      }
    }

    method Bind(i: nat, port: u16)
      requires Valid() && i < MAX_SOCKETS
      modifies sockets
      ensures Valid() && Abs() == old(Abs()).With(i, old(sockets[i]).(local_port := port))
    {
      sockets[i] := sockets[i].(local_port := port);
    }

    method Listen(i: nat)
      requires Valid() && i < MAX_SOCKETS
      modifies sockets
      ensures Valid() && Abs() == old(Abs()).With(i, old(sockets[i]).(state := Listening))
    {
      sockets[i] := sockets[i].(state := Listening);
    }

    method TcpConnect(remote_ip: Ip4, remote_port: u16, local_port: u16, local_ip: Ip4) returns (sock: Option<nat>)
      requires Valid()
      modifies this`trace, sockets
      ensures Valid() && Abs() == Step(kernel, old(Abs()), ConnectTo(remote_ip, remote_port, local_port, local_ip))
      ensures sock == var j := FreeSlot(old(sockets[..]), 0); if j == MAX_SOCKETS then None else Some(j)
    {
      sock := AllocSocket();
      if sock.None? {
        return;
      }
      var j := sock.value;
      sockets[j] := sockets[j].(remote_ip := remote_ip, local_ip := local_ip);
      sockets[j] := sockets[j].(remote_port := remote_port, local_port := local_port);
      sockets[j] := sockets[j].(seq_num := 0, ack_num := 0, state := SynSent);
      trace := trace + [Connecting(j, Tuple(local_ip, remote_ip, local_port, remote_port))];
      ghost var s := Taken(old(sockets[j]), j).(remote_ip := remote_ip, local_ip := local_ip, remote_port := remote_port,
                                                local_port := local_port, seq_num := 0, ack_num := 0, state := SynSent);
      assert Abs() == old(Abs()).With(j, s).Note(Connecting(j, Tuple(local_ip, remote_ip, local_port, remote_port)));
      SendTcpPacket(j, [], SYN);
      sockets[j] := sockets[j].(seq_num := 1);
    }

    method Read(i: nat, maxlen: u32) returns (buf: seq<u8>)
      requires Valid() && Enabled(Abs(), ReadFrom(i, maxlen))
      modifies this`trace, sockets
      ensures Valid() && Abs() == Tcp.Read(old(Abs()), i, maxlen) && buf == Take(old(sockets[i]), maxlen)
      ensures |buf| == (if old(sockets[i]).rx_len < maxlen then old(sockets[i]).rx_len else maxlen) <= RX_BUFFER_SIZE
      ensures buf == old(sockets[i]).rx_buffer[..|buf|]
    {
      var n := if sockets[i].rx_len < maxlen then sockets[i].rx_len else maxlen;
      buf := [];
      var k := 0;
      while k < n
        invariant 0 <= k <= n && buf == sockets[i].rx_buffer[..k]
      {
        buf := buf + [sockets[i].rx_buffer[k]];
        k := k + 1;
      }
      sockets[i] := sockets[i].(rx_len := 0);
      trace := trace + [Delivered(i, buf)];
    }

    method Write(i: nat, data: seq<u8>)
      requires Valid() && i < MAX_SOCKETS && |data| <= 1460
      modifies this`trace, sockets
      ensures Valid() && Abs() == Send(kernel, old(Abs()), i, data, ACK)
    {
      SendTcpPacket(i, data, ACK);
    }

    method Close(i: nat)
      requires Valid() && i < MAX_SOCKETS
      modifies this`trace, sockets
      ensures Valid() && Abs() == Tcp.Close(kernel, old(Abs()), i)
    {
      if sockets[i].state == Established || sockets[i].state == FinWait {
        SendTcpPacket(i, [], FIN + ACK);
      } else if sockets[i].state == SynSent {
        SendTcpPacket(i, [], RST);
      }
      FreeSocket(i);
    }

    method OnTcpPacket(p: Packet)
      requires Valid() && p.Valid()
      modifies this`trace, sockets
      ensures Valid() && Abs() == OnPacket(kernel, old(Abs()), p, 0)
      ensures old(TcpRuns.Inv(Abs())) ==> TcpRuns.Inv(Abs())
    {
      ghost var n := Abs();
      if TcpRuns.Inv(n) {
        TcpRuns.OnPacketKeeps(kernel, n, p, 0);
      }
      var i := 0;
      while i < MAX_SOCKETS
        invariant Valid() && 0 <= i <= MAX_SOCKETS
        invariant OnPacket(kernel, n, p, 0) == OnPacket(kernel, Abs(), p, i)
      {
        var stop := OnSocket(p, i);
        if stop {
          return;
        }
        i := i + 1;
      }
    }

    /** The body of on_tcp_packet's loop. */
    method OnSocket(p: Packet, i: nat) returns (stop: bool)
      requires Valid() && p.Valid() && i < MAX_SOCKETS
      modifies this`trace, sockets
      ensures Valid() && (Abs(), stop) == Handle(kernel, old(Abs()), p, i)
    {
      if !sockets[i].used || sockets[i].local_port != p.dest_port {
        return false;
      }
      if sockets[i].state == Listening && p.Has(SYN) {
        OpenPassive(p);
        return true;
      }
      if sockets[i].state == SynSent && p.Has(RST) {
        FreeSocket(i);
        return true;
      }
      if sockets[i].state == SynSent && p.Has(SYN) && p.Has(ACK) && p.From(sockets[i]) {
        sockets[i] := sockets[i].(local_ip := p.dst_ip);
        sockets[i] := sockets[i].(ack_num := Add32(p.seq_num, 1), state := Established);
        trace := trace + [Answered(i, p.seq_num, p.dst_ip)];
        ghost var s := old(sockets[i]).(local_ip := p.dst_ip, ack_num := Add32(p.seq_num, 1), state := Established);
        assert Abs() == old(Abs()).With(i, s).Note(Answered(i, p.seq_num, p.dst_ip));
        SendTcpPacket(i, [], ACK);
        return true;
      }
      if sockets[i].state == Established && p.From(sockets[i]) {
        if p.Has(RST) {
          FreeSocket(i);
          return true;
        }
        if p.Data() != [] {
          Store(i, p);
          SendTcpPacket(i, [], ACK);
        }
        if p.Has(FIN) {
          SendTcpPacket(i, [], ACK);
          FreeSocket(i);
        }
      }
      return false;
    }

    method OpenPassive(p: Packet)
      requires Valid() && p.Valid()
      modifies this`trace, sockets
      ensures Valid() && Abs() == PassiveOpen(kernel, old(Abs()), p)
    {
      var conn := AllocSocket();
      if conn.None? {
        return;
      }
      var j := conn.value;
      sockets[j] := sockets[j].(remote_ip := p.src_ip, local_ip := p.dst_ip);
      sockets[j] := sockets[j].(local_port := p.dest_port, remote_port := p.source_port);
      sockets[j] := sockets[j].(state := Established, seq_num := 0, ack_num := Add32(p.seq_num, 1));
      trace := trace + [Accepted(j, p.seq_num, Tuple(p.dst_ip, p.src_ip, p.dest_port, p.source_port))];
      ghost var s := Taken(old(sockets[j]), j).(remote_ip := p.src_ip, local_ip := p.dst_ip, local_port := p.dest_port,
                                                remote_port := p.source_port, state := Established,
                                                seq_num := 0, ack_num := Add32(p.seq_num, 1));
      assert Abs() == old(Abs()).With(j, s).Note(Accepted(j, p.seq_num, Tuple(p.dst_ip, p.src_ip, p.dest_port, p.source_port)));
      SendTcpPacket(j, [], SYN + ACK);
      sockets[j] := sockets[j].(seq_num := 1);
    }

    /** Copies the segment's data to the front of the receive buffer, as much as fits. */
    method Store(i: nat, p: Packet)
      requires Valid() && p.Valid() && i < MAX_SOCKETS
      modifies this`trace, sockets
      ensures Valid()
      ensures var s := old(sockets[i]).(rx_buffer := Filled(old(sockets[i].rx_buffer), p.Data()), rx_len := |p.Data()|,
                                        ack_num := Add32(p.seq_num, |p.Data()|));
              Abs() == old(Abs()).With(i, s).Note(Received(i, p.seq_num, p.Data()))
    {
      var data := p.Data();
      assert |data| < M32;
      hide Packet.Data, Filled;
      var buf := CopyIn(data, sockets[i].rx_buffer);
      sockets[i] := sockets[i].(rx_buffer := buf);
      sockets[i] := sockets[i].(rx_len := |data|, ack_num := Add32(p.seq_num, |data|));
      trace := trace + [Received(i, p.seq_num, data)];
    }

    static method CopyIn(data: seq<u8>, was: seq<u8>) returns (buf: seq<u8>)
      requires |was| == RX_BUFFER_SIZE
      ensures buf == Filled(was, data)
    {
      buf := was;
      var j := 0;
      while j < |data| && j < RX_BUFFER_SIZE
        invariant 0 <= j <= |data| && j <= RX_BUFFER_SIZE == |buf|
        invariant buf[..j] == data[..j] && buf[j..] == was[j..]
      {
        buf := buf[j := data[j]];
        j := j + 1;
      }
    }
  }
}
