/** Whose bytes the chat room reads: the accounts of received data through one server iteration. */
module RoomData {
  import opened Bytes
  import Tcp
  import TcpRuns
  import opened TcpDemux

  /** sizeof(rx_buf) - 1: what the room reads at once. */
  const ROOM_READ: nat := 1023

  /** No received data moved. */
  ghost predicate Quiet(n: Tcp.Net, m: Tcp.Net) {
    |m.socks| == |n.socks| && forall s :: 0 <= s < |n.socks| ==> SameData(n, m, s)
  }

  lemma Unmoved(n: Tcp.Net)
    ensures Quiet(n, n)
  {
  }

  lemma NothingRead(n: Tcp.Net, c: seq<Option<nat>>)
    ensures ReadSome(n, n, c, 0)
  {
  }

  lemma QuietTwice(a: Tcp.Net, b: Tcp.Net, c: Tcp.Net)
    requires Quiet(a, b) && Quiet(b, c)
    ensures Quiet(a, c)
  {
    forall s | 0 <= s < |a.socks| ensures SameData(a, c, s) {
      assert SameData(a, b, s) && SameData(b, c, s);
    }
  }

  lemma SendQuiet(kernel: nat -> bool, n: Tcp.Net, j: nat, data: seq<u8>, flags: u8)
    requires j < |n.socks| && |data| < M32
    ensures Quiet(n, Tcp.Send(kernel, n, j, data, flags))
  {
    forall s | 0 <= s < |n.socks| ensures SameData(n, Tcp.Send(kernel, n, j, data, flags), s) {
      SendSame(kernel, n, j, data, flags, s);
    }
  }

  /** Slot s was read once: nothing waits, and what was handed over grew by at most ROOM_READ bytes. */
  ghost predicate WasRead(n: Tcp.Net, m: Tcp.Net, s: nat) {
    && s < |n.socks| == |m.socks| && m.socks[s].rx_len == 0
    && TcpRuns.Rcvd(m.trace, s) == TcpRuns.Rcvd(n.trace, s)
    && |TcpRuns.Handed(m.trace, s)| == |TcpRuns.Handed(n.trace, s)| +
         (if n.socks[s].rx_len < ROOM_READ then n.socks[s].rx_len else ROOM_READ)
    && (Conserved(n, s) && n.socks[s].rx_len <= ROOM_READ ==> Conserved(m, s))
  }

  /** Slot o was read, the others were left alone. */
  ghost predicate ReadOne(n: Tcp.Net, m: Tcp.Net, o: Option<nat>) {
    |m.socks| == |n.socks| && forall s :: 0 <= s < |n.socks| ==> if o == Some(s) then WasRead(n, m, s) else SameData(n, m, s)
  }

  lemma ReadReads(n: Tcp.Net, i: nat)
    requires n.Sized() && i < Tcp.MAX_SOCKETS
    ensures ReadOne(n, Tcp.Read(n, i, ROOM_READ), Some(i))
  {
    var m := Tcp.Read(n, i, ROOM_READ);
    var o := Tcp.Delivered(i, Tcp.Take(n.socks[i], ROOM_READ));
    forall s | 0 <= s < |n.socks| ensures if s == i then WasRead(n, m, s) else SameData(n, m, s) {
      TcpRuns.Extend(n.trace, o, s);
      if s == i && Conserved(n, i) {
        ReadExact(n, i, ROOM_READ);
      }
    }
  }

  lemma NoneRead(n: Tcp.Net)
    ensures ReadOne(n, n, None)
  {
  }

  lemma ThenQuiet(a: Tcp.Net, b: Tcp.Net, c: Tcp.Net, o: Option<nat>)
    requires ReadOne(a, b, o) && Quiet(b, c)
    ensures ReadOne(a, c, o)
  {
    forall s | 0 <= s < |a.socks| ensures if o == Some(s) then WasRead(a, c, s) else SameData(a, c, s) {
      assert SameData(b, c, s);
    }
  }

  /** The first i entries of the client table whose connection is up were read, the other slots left alone. */
  ghost predicate ReadSome(n: Tcp.Net, m: Tcp.Net, c: seq<Option<nat>>, i: nat)
    requires i <= |c|
  {
    |m.socks| == |n.socks| && forall s :: 0 <= s < |n.socks| ==>
      if Some(s) in c[..i] && n.socks[s].state == Tcp.Established then WasRead(n, m, s) else SameData(n, m, s)
  }

  lemma ReadNext(a: Tcp.Net, b: Tcp.Net, d: Tcp.Net, c: seq<Option<nat>>, i: nat)
    requires i < |c| && ReadSome(a, b, c, i)
    requires forall j :: 0 <= j < i && c[j].Some? ==> c[j] != c[i]
    requires forall s :: 0 <= s < |a.socks| ==> b.socks[s].state == a.socks[s].state
    requires c[i].Some? ==> c[i].value < |b.socks|
    requires ReadOne(b, d, if c[i].Some? && b.socks[c[i].value].state == Tcp.Established then c[i] else None)
    ensures ReadSome(a, d, c, i + 1)
  {
    assert c[..i + 1] == c[..i] + [c[i]];
    forall s | 0 <= s < |a.socks|
      ensures if Some(s) in c[..i + 1] && a.socks[s].state == Tcp.Established then WasRead(a, d, s) else SameData(a, d, s)
    {
      assert c[i] == Some(s) ==> Some(s) !in c[..i];
    }
  }

  /** An entry that has not had its turn still has all its bytes. */
  lemma Unread(a: Tcp.Net, b: Tcp.Net, c: seq<Option<nat>>, i: nat)
    requires i < |c| && ReadSome(a, b, c, i) && forall j :: 0 <= j < i && c[j].Some? ==> c[j] != c[i]
    requires c[i].Some? ==> c[i].value < |a.socks|
    ensures c[i].Some? ==> SameData(a, b, c[i].value)
  {
    assert c[i].Some? ==> c[i] !in c[..i];
  }

  /** Nothing waits at slot s: the bytes handed to the room on its connection are those accepted on it. */
  ghost predicate CleanAt(n: Tcp.Net, s: nat)
    requires s < |n.socks|
  {
    n.socks[s].rx_len == 0 && TcpRuns.Rcvd(n.trace, s) == TcpRuns.Handed(n.trace, s)
  }

  ghost predicate Clean(n: Tcp.Net) {
    forall s :: 0 <= s < |n.socks| ==> CleanAt(n, s)
  }

  /** The data a packet brings fits one read of the room, and does not come with a FIN. */
  ghost predicate Harmless(socks: seq<Tcp.Socket>, p: Tcp.Packet)
    requires p.Valid()
  {
    forall s :: 0 <= s < |socks| && Gives(socks, p, 0, s) ==> |p.Data()| <= ROOM_READ && !p.Has(Tcp.FIN)
  }

  /** What happens to slot s between a packet and the end of the iteration: it is read, or left alone. */
  lemma SlotThrough(kernel: nat -> bool, n: Tcp.Net, p: Tcp.Packet, b: Tcp.Net, c: Tcp.Net, read: bool, s: nat)
    requires n.Sized() && p.Valid() && Clean(n) && s < Tcp.MAX_SOCKETS
    requires Gives(n.socks, p, 0, s) ==> Opened(n.socks, p, 0).None?
    requires SameData(Tcp.OnPacket(kernel, n, p, 0), b, s)
    requires if read then WasRead(b, c, s) else SameData(b, c, s)
    ensures CleanAt(c, s) <==> (Gives(n.socks, p, 0, s) ==> read && |p.Data()| <= ROOM_READ)
  {
    hide Opened, Gives, Tcp.OnPacket, TcpRuns.Rcvd, TcpRuns.Handed;
    var m := Tcp.OnPacket(kernel, n, p, 0);
    assert n.socks[s].rx_buffer[..0] == [];
    assert CleanAt(n, s) && Conserved(n, s);
    Tcp.OnPacketSized(kernel, n, p, 0);
    PacketExact(kernel, n, p, 0, s);
    if Gives(n.socks, p, 0, s) {
      PacketGives(kernel, n, p, 0, s);
      GivesData(n.socks, p, 0, s);
    } else {
      PacketRx(kernel, n, p, 0, s);
      assert Conserved(m, s) && Conserved(b, s);
    }
    if c.socks[s].rx_len == 0 {
      EmptyConserved(c, s);
    }
  }

  /** The bytes a harmless packet brings to slot s of a clean room wait there. */
  lemma DataWaits(kernel: nat -> bool, n: Tcp.Net, p: Tcp.Packet, s: nat)
    requires n.Sized() && p.Valid() && Clean(n) && s < Tcp.MAX_SOCKETS && |p.Data()| <= ROOM_READ
    requires Gives(n.socks, p, 0, s) && Opened(n.socks, p, 0).None?
    ensures var m := Tcp.OnPacket(kernel, n, p, 0);
            && m.Sized() && m.socks[s].rx_len == |p.Data()| > 0 && m.socks[s].used == !p.Has(Tcp.FIN)
            && m.socks[s].rx_buffer[..|p.Data()|] == p.Data()
  {
    hide Opened, Gives, Tcp.OnPacket, TcpRuns.Rcvd, TcpRuns.Handed;
    assert n.socks[s].rx_buffer[..0] == [];
    assert CleanAt(n, s) && Conserved(n, s);
    PacketExact(kernel, n, p, 0, s);
    PacketGives(kernel, n, p, 0, s);
    GivesData(n.socks, p, 0, s);
    var m := Tcp.OnPacket(kernel, n, p, 0);
    var waiting := m.socks[s].rx_buffer[..|p.Data()|];
    assert TcpRuns.Handed(n.trace, s) + waiting == TcpRuns.Handed(n.trace, s) + p.Data();
    assert (TcpRuns.Handed(n.trace, s) + waiting)[|TcpRuns.Handed(n.trace, s)|..] == waiting;
  }

  lemma GivesData(socks: seq<Tcp.Socket>, p: Tcp.Packet, k: nat, s: nat)
    requires p.Valid() && Gives(socks, p, k, s)
    ensures |p.Data()| > 0
  {
  }

  lemma EmptyConserved(n: Tcp.Net, s: nat)
    requires s < |n.socks| && n.socks[s].rx_len == 0
    ensures Conserved(n, s) <==> TcpRuns.Rcvd(n.trace, s) == TcpRuns.Handed(n.trace, s)
  {
    assert n.socks[s].rx_buffer[..0] == [];
  }
}
