/** What every run of the socket table keeps: sequence accounting, acknowledgement, table safety. */
module TcpRuns {
  import opened Bytes
  import opened Tcp

  // ---- reading the history -----------------------------------------------
  // Each function looks at one slot and stops at the event that opened its current connection.

  /** Bytes emitted on the slot's connection. */
  function Sent(t: seq<Obs>, i: nat): seq<u8> {
    if t == [] then []
    else
      var rest, o := t[..|t| - 1], t[|t| - 1];
      if o.slot != i then Sent(rest, i)
      else if o.Opens() then []
      else if o.Emitted? then Sent(rest, i) + o.data
      else Sent(rest, i)
  }

  /** Bytes accepted from the peer. */
  function Rcvd(t: seq<Obs>, i: nat): seq<u8> {
    if t == [] then []
    else
      var rest, o := t[..|t| - 1], t[|t| - 1];
      if o.slot != i then Rcvd(rest, i)
      else if o.Opens() then []
      else if o.Received? then Rcvd(rest, i) + o.data
      else Rcvd(rest, i)
  }

  /** Bytes handed to the application by read. */
  function Handed(t: seq<Obs>, i: nat): seq<u8> {
    if t == [] then []
    else
      var rest, o := t[..|t| - 1], t[|t| - 1];
      if o.slot != i then Handed(rest, i)
      else if o.Opens() then []
      else if o.Delivered? then Handed(rest, i) + o.data
      else Handed(rest, i)
  }

  /** The peer's initial sequence number, once known. */
  function Isn(t: seq<Obs>, i: nat): Option<u32> {
    if t == [] then None
    else
      var rest, o := t[..|t| - 1], t[|t| - 1];
      if o.slot != i then Isn(rest, i)
      else if o.Accepted? || o.Answered? then Some(o.isn)
      else if o.Connecting? then None
      else Isn(rest, i)
  }

  /** The last data segment accepted: its sequence number, and the bytes accepted before and in it. */
  datatype Arrival = Arrival(seq_num: u32, before: nat, len: nat)

  function LastArrival(t: seq<Obs>, i: nat): Option<Arrival> {
    if t == [] then None
    else
      var rest, o := t[..|t| - 1], t[|t| - 1];
      if o.slot != i then LastArrival(rest, i)
      else if o.Opens() || o.Answered? then None
      else if o.Received? then Some(Arrival(o.seq_num, |Rcvd(rest, i)|, |o.data|))
      else LastArrival(rest, i)
  }

  /** How one more observation changes what is read off the history. */
  lemma Extend(t: seq<Obs>, o: Obs, i: nat)
    ensures o.slot != i ==>
      && Sent(t + [o], i) == Sent(t, i) && Rcvd(t + [o], i) == Rcvd(t, i) && Handed(t + [o], i) == Handed(t, i)
      && Isn(t + [o], i) == Isn(t, i) && LastArrival(t + [o], i) == LastArrival(t, i)
    ensures o.slot == i && o.Opens() ==>
      Sent(t + [o], i) == [] && Rcvd(t + [o], i) == [] && Handed(t + [o], i) == [] && LastArrival(t + [o], i) == None
    ensures o.slot == i && !o.Opens() ==>
      && Sent(t + [o], i) == Sent(t, i) + (if o.Emitted? then o.data else [])
      && Rcvd(t + [o], i) == Rcvd(t, i) + (if o.Received? then o.data else [])
      && Handed(t + [o], i) == Handed(t, i) + (if o.Delivered? then o.data else [])
      && Isn(t + [o], i) == (if o.Answered? then Some(o.isn) else Isn(t, i))
      && LastArrival(t + [o], i) == (if o.Answered? then None
                                     else if o.Received? then Some(Arrival(o.seq_num, |Rcvd(t, i)|, |o.data|))
                                     else LastArrival(t, i))
    ensures o.slot == i && o.Accepted? ==> Isn(t + [o], i) == Some(o.isn)
  {
    assert (t + [o])[..|t|] == t;
  }

  // ---- the invariant -------------------------------------------------------

  predicate Active(s: Socket) {
    s.used && (s.state == SynSent || s.state == Established)
  }

  function Mod32(n: nat): u32 { n % M32 }

  /** Send side: the next sequence number counts the SYN and every byte emitted since. */
  ghost predicate SendOk(t: seq<Obs>, s: Socket, i: nat) {
    Active(s) ==> s.seq_num == Mod32(1 + |Sent(t, i)|) && (s.state == SynSent ==> Sent(t, i) == [])
  }

  /** Receive side: acknowledge just after the last accepted segment, or just after the peer's SYN. */
  ghost predicate AckOk(t: seq<Obs>, s: Socket, i: nat) {
    s.used && s.state == Established ==>
      && Isn(t, i).Some?
      && match LastArrival(t, i)
         case None => s.ack_num == Mod32(Isn(t, i).value + 1) && Rcvd(t, i) == []
         case Some(a) => s.ack_num == Mod32(a.seq_num + a.len) && |Rcvd(t, i)| == a.before + a.len
  }

  ghost predicate SlotOk(t: seq<Obs>, s: Socket, i: nat) {
    && |s.rx_buffer| == RX_BUFFER_SIZE
    && s.state != FinWait
    && (if s.used then s.id == i else s.state == Closed)
    && SendOk(t, s, i) && AckOk(t, s, i)
    && (s.used && s.state == SynSent ==> Rcvd(t, i) == [])
  }

  /** Every emitted segment carries the sequence number from before its own bytes; a SYN carries 0. */
  ghost predicate EmissionsOk(t: seq<Obs>) {
    forall q :: 0 <= q < |t| && t[q].Emitted? ==> EmissionOk(t, q)
  }

  ghost predicate EmissionOk(t: seq<Obs>, q: nat)
    requires q < |t| && t[q].Emitted?
  {
    t[q].seq_num == if t[q].flags / SYN % 2 == 1 then 0 else Mod32(1 + |Sent(t[..q], t[q].slot)|)
  }

  ghost predicate Inv(n: Net) {
    |n.socks| == MAX_SOCKETS && EmissionsOk(n.trace) && forall i :: 0 <= i < MAX_SOCKETS ==> SlotOk(n.trace, n.socks[i], i)
  }

  /** The invariant of every slot but j, which an operation is working on. */
  ghost predicate InvBut(n: Net, j: nat) {
    |n.socks| == MAX_SOCKETS && EmissionsOk(n.trace) &&
    forall i :: 0 <= i < MAX_SOCKETS && i != j ==> SlotOk(n.trace, n.socks[i], i)
  }

  /** Working on slot j and observing it leaves every other slot's account alone. */
  lemma Work(n: Net, j: nat, s: Socket, o: Obs)
    requires InvBut(n, j) && j < MAX_SOCKETS && o.slot == j
    requires o.Emitted? ==> o.seq_num == if o.flags / SYN % 2 == 1 then 0 else Mod32(1 + |Sent(n.trace, j)|)
    ensures InvBut(n.With(j, s).Note(o), j)
  {
    var m := n.With(j, s).Note(o);
    forall i | 0 <= i < MAX_SOCKETS && i != j ensures SlotOk(m.trace, m.socks[i], i) {
      Extend(n.trace, o, i);
    }
    forall q | 0 <= q < |m.trace| && m.trace[q].Emitted? ensures EmissionOk(m.trace, q) {
      if q < |n.trace| {
        assert m.trace[q] == n.trace[q] && m.trace[..q] == n.trace[..q];
        assert EmissionOk(n.trace, q);
      } else {
        assert m.trace[..q] == n.trace;
      }
    }
  }

  lemma AddMod(a: nat, b: u32)
    ensures Add32(Mod32(a), b) == Mod32(a + b)
  {
    WrapAdd(a, b);
    if Mod32(a) + b < M32 {
      WrapUnique(Mod32(a) + b, 0, Mod32(a) + b);
    } else {
      WrapUnique(Mod32(a) + b, 1, Mod32(a) + b - M32);
    }
  }

  /** A segment sent on an active connection keeps its account, with whatever the kernel answers. */
  lemma SendKeeps(kernel: nat -> bool, n: Net, i: nat, data: seq<u8>, flags: u8)
    requires InvBut(n, i) && i < MAX_SOCKETS && SlotOk(n.trace, n.socks[i], i)
    requires n.socks[i].state == Established || (n.socks[i].state == SynSent && data == [])
    requires |data| < M32 && flags / SYN % 2 == 0
    ensures var m := Send(kernel, n, i, data, flags);
            && Inv(m)
            && m.socks == n.socks[i := n.socks[i].(seq_num := m.socks[i].seq_num)]
            && Rcvd(m.trace, i) == Rcvd(n.trace, i) && LastArrival(m.trace, i) == LastArrival(n.trace, i)
  {
    hide Sent, Rcvd, Handed, Isn, LastArrival;
    var s := n.socks[i];
    var o := if kernel(|n.trace|) then Emission(i, s, flags, data) else CraftFailed(i);
    Extend(n.trace, o, i);
    AddMod(1 + |Sent(n.trace, i)|, |data|);
    var t := if kernel(|n.trace|) then s.(seq_num := Add32(s.seq_num, |data|)) else s;
    Work(n, i, t, o);
    assert n.socks[i := s] == n.socks;
    assert SlotOk(n.trace + [o], t, i);
  }

  /** A SYN with number 0, after which the source stores 1. */
  lemma SynKeeps(kernel: nat -> bool, n: Net, i: nat, flags: u8)
    requires InvBut(n, i) && i < MAX_SOCKETS && flags / SYN % 2 == 1
    requires n.socks[i].seq_num == 0 && Sent(n.trace, i) == []
    requires SlotOk(n.trace, n.socks[i].(seq_num := 1), i)
    ensures var m := Send(kernel, n, i, [], flags);
            Inv(m.With(i, m.socks[i].(seq_num := 1)))
  {
    hide Sent, Rcvd, Handed, Isn, LastArrival;
    var s := n.socks[i];
    var o := if kernel(|n.trace|) then Emission(i, s, flags, []) else CraftFailed(i);
    var one := s.(seq_num := 1);
    Extend(n.trace, o, i);
    Work(n, i, one, o);
    assert SlotOk(n.trace + [o], one, i);
    var m := Send(kernel, n, i, [], flags);
    assert m.trace == n.trace + [o] && m.socks[i] == s;
    assert m.socks[i := one] == n.socks[i := one];
  }

  lemma FreeKeeps(n: Net, i: nat)
    requires InvBut(n, i) && i < MAX_SOCKETS && |n.socks[i].rx_buffer| == RX_BUFFER_SIZE
    ensures Inv(Free(n, i))
  {
    Work(n, i, n.socks[i].(used := false, state := Closed), Freed(i));
  }

  lemma PassiveOpenKeeps(kernel: nat -> bool, n: Net, p: Packet)
    requires Inv(n)
    ensures Inv(PassiveOpen(kernel, n, p))
  {
    var j := FreeSlot(n.socks, 0);
    if j < MAX_SOCKETS {
      var s := Taken(n.socks[j], j).(remote_ip := p.src_ip, local_ip := p.dst_ip, local_port := p.dest_port,
                                     remote_port := p.source_port, state := Established,
                                     seq_num := 0, ack_num := Add32(p.seq_num, 1));
      var o := Accepted(j, p.seq_num, Tuple(p.dst_ip, p.src_ip, p.dest_port, p.source_port));
      assert SlotOk(n.trace, n.socks[j], j);
      Work(n, j, s, o);
      Extend(n.trace, o, j);
      AddMod(p.seq_num, 1);
      SynKeeps(kernel, n.With(j, s).Note(o), j, SYN + ACK);
    }
  }

  lemma AnswerKeeps(kernel: nat -> bool, n: Net, i: nat, p: Packet)
    requires Inv(n) && i < MAX_SOCKETS && n.socks[i].used && n.socks[i].state == SynSent
    ensures Inv(Answer(kernel, n, i, p))
  {
    hide Sent, Rcvd, Handed, Isn, LastArrival;
    var s := n.socks[i].(local_ip := p.dst_ip, ack_num := Add32(p.seq_num, 1), state := Established);
    var o := Answered(i, p.seq_num, p.dst_ip);
    assert SlotOk(n.trace, n.socks[i], i);
    Work(n, i, s, o);
    Extend(n.trace, o, i);
    AddMod(p.seq_num, 1);
    SendKeeps(kernel, n.With(i, s).Note(o), i, [], ACK);
  }

  lemma ReceiveKeeps(kernel: nat -> bool, n: Net, i: nat, p: Packet)
    requires Inv(n) && i < MAX_SOCKETS && n.socks[i].used && n.socks[i].state == Established && p.Valid()
    ensures Inv(Receive(kernel, n, i, p))
    ensures var r := Receive(kernel, n, i, p).socks[i]; r.used && r.state == Established
  {
    hide Sent, Rcvd, Handed, Isn, LastArrival;
    var s := n.socks[i].(rx_buffer := Filled(n.socks[i].rx_buffer, p.Data()), rx_len := |p.Data()|,
                         ack_num := Add32(p.seq_num, |p.Data()|));
    var o := Received(i, p.seq_num, p.Data());
    assert SlotOk(n.trace, n.socks[i], i);
    Work(n, i, s, o);
    Extend(n.trace, o, i);
    AddMod(p.seq_num, |p.Data()|);
    SendKeeps(kernel, n.With(i, s).Note(o), i, [], ACK);
  }

  lemma HandleKeeps(kernel: nat -> bool, n: Net, p: Packet, i: nat)
    requires Inv(n) && i < MAX_SOCKETS && p.Valid()
    ensures Inv(Handle(kernel, n, p, i).0)
  {
    var s := n.socks[i];
    assert SlotOk(n.trace, s, i);
    if !s.used || s.local_port != p.dest_port {
    } else if s.state == Listening && p.Has(SYN) {
      PassiveOpenKeeps(kernel, n, p);
    } else if s.state == SynSent && p.Has(RST) {
      FreeKeeps(n, i);
    } else if s.state == SynSent && p.Has(SYN) && p.Has(ACK) && p.From(s) {
      AnswerKeeps(kernel, n, i, p);
    } else if s.state == Established && p.From(s) {
      if p.Has(RST) {
        FreeKeeps(n, i);
      } else {
        var m := n;
        if p.Data() != [] {
          ReceiveKeeps(kernel, n, i, p);
          m := Receive(kernel, n, i, p);
        }
        if p.Has(FIN) {
          assert SlotOk(m.trace, m.socks[i], i);
          SendKeeps(kernel, m, i, [], ACK);
          FreeKeeps(Send(kernel, m, i, [], ACK), i);
        }
      }
    }
  }

  lemma {:induction false} OnPacketKeeps(kernel: nat -> bool, n: Net, p: Packet, i: nat)
    requires Inv(n) && i <= MAX_SOCKETS && p.Valid()
    ensures Inv(OnPacket(kernel, n, p, i))
    decreases MAX_SOCKETS - i
  {
    if i < MAX_SOCKETS {
      HandleKeeps(kernel, n, p, i);
      OnPacketKeeps(kernel, Handle(kernel, n, p, i).0, p, i + 1);
    }
  }

  lemma ConnectKeeps(kernel: nat -> bool, n: Net, j: nat, rip: Ip4, rport: u16, lport: u16, lip: Ip4)
    requires Inv(n) && j < MAX_SOCKETS
    ensures Inv(Connect(kernel, n, j, rip, rport, lport, lip))
  {
    var s := Taken(n.socks[j], j).(remote_ip := rip, local_ip := lip, remote_port := rport,
                                   local_port := lport, seq_num := 0, ack_num := 0, state := SynSent);
    assert SlotOk(n.trace, n.socks[j], j);
    Work(n, j, s, Connecting(j, Tuple(lip, rip, lport, rport)));
    Extend(n.trace, Connecting(j, Tuple(lip, rip, lport, rport)), j);
    SynKeeps(kernel, n.With(j, s).Note(Connecting(j, Tuple(lip, rip, lport, rport))), j, SYN);
  }

  lemma ReadKeeps(n: Net, i: nat, maxlen: u32)
    requires Inv(n) && n.Sized() && Enabled(n, ReadFrom(i, maxlen))
    ensures Inv(Read(n, i, maxlen))
  {
    var o := Delivered(i, Take(n.socks[i], maxlen));
    assert SlotOk(n.trace, n.socks[i], i);
    Work(n, i, n.socks[i].(rx_len := 0), o);
    Extend(n.trace, o, i);
    assert SlotOk(n.trace + [o], n.socks[i].(rx_len := 0), i);
  }

  lemma CloseKeeps(kernel: nat -> bool, n: Net, i: nat)
    requires Inv(n) && i < MAX_SOCKETS
    ensures Inv(Close(kernel, n, i))
  {
    var s := n.socks[i];
    assert SlotOk(n.trace, s, i);
    if s.state == Established {
      SendKeeps(kernel, n, i, [], FIN + ACK);
      FreeKeeps(Send(kernel, n, i, [], FIN + ACK), i);
    } else if s.state == SynSent {
      SendKeeps(kernel, n, i, [], RST);
      FreeKeeps(Send(kernel, n, i, [], RST), i);
    } else {
      FreeKeeps(n, i);
    }
  }

  lemma StepKeeps(kernel: nat -> bool, n: Net, e: Event)
    requires n.Sized() && Inv(n) && Enabled(n, e)
    ensures Inv(Step(kernel, n, e))
  {
    match e
    case PacketIn(p) => OnPacketKeeps(kernel, n, p, 0);
    case ConnectTo(rip, rport, lport, lip) =>
      if FreeSlot(n.socks, 0) < MAX_SOCKETS {
        ConnectKeeps(kernel, n, FreeSlot(n.socks, 0), rip, rport, lport, lip);
      }
    case SocketTcp4 =>
    case Bind(i, _) => assert SlotOk(n.trace, n.socks[i], i);
    case Listen(i) => assert SlotOk(n.trace, n.socks[i], i);
    case ReadFrom(i, maxlen) => ReadKeeps(n, i, maxlen);
    case WriteTo(i, data) =>
      assert SlotOk(n.trace, n.socks[i], i);
      SendKeeps(kernel, n, i, data, ACK);
    case CloseSlot(i) => CloseKeeps(kernel, n, i);
    case ResendSynOn(i) =>
      assert SlotOk(n.trace, n.socks[i], i);
      SynKeeps(kernel, n.With(i, n.socks[i].(seq_num := 0)), i, SYN);
  }

  lemma {:induction false} RunKeeps(kernel: nat -> bool, n: Net, es: seq<Event>)
    requires n.Sized() && Inv(n) && CanRun(kernel, n, es)
    ensures Inv(Run(kernel, n, es))
    decreases |es|
  {
    if es != [] {
      StepKeeps(kernel, n, es[0]);
      StepSized(kernel, n, es[0]);
      RunKeeps(kernel, Step(kernel, n, es[0]), es[1..]);
    }
  }

  // ---- main results ---------------------------------------------------------

  /** Sequence accounting over every run: a connection's sequence number is one more than the bytes it has emitted,
      mod 2^32; every segment on the wire was numbered before its own bytes; a SYN_SENT slot holds 1. */
  lemma SequenceAccounting(kernel: nat -> bool, es: seq<Event>)
    requires CanRun(kernel, Init(), es)
    ensures var n := Run(kernel, Init(), es);
            && (forall i :: 0 <= i < MAX_SOCKETS && Active(n.socks[i]) ==> n.socks[i].seq_num == (1 + |Sent(n.trace, i)|) % M32)
            && (forall i :: 0 <= i < MAX_SOCKETS && n.socks[i].used && n.socks[i].state == SynSent ==> n.socks[i].seq_num == 1)
            && (forall q :: 0 <= q < |n.trace| && n.trace[q].Emitted? ==>
                  n.trace[q].seq_num == if n.trace[q].flags / SYN % 2 == 1 then 0 else (1 + |Sent(n.trace[..q], n.trace[q].slot)|) % M32)
  {
    hide Run, CanRun, Sent;
    RunKeeps(kernel, Init(), es);
    var n := Run(kernel, Init(), es);
    forall i | 0 <= i < MAX_SOCKETS && Active(n.socks[i])
      ensures n.socks[i].seq_num == (1 + |Sent(n.trace, i)|) % M32 && (n.socks[i].state == SynSent ==> n.socks[i].seq_num == 1)
    {
      assert SlotOk(n.trace, n.socks[i], i);
    }
    forall q | 0 <= q < |n.trace| && n.trace[q].Emitted?
      ensures n.trace[q].seq_num == if n.trace[q].flags / SYN % 2 == 1 then 0 else (1 + |Sent(n.trace[..q], n.trace[q].slot)|) % M32
    {
      assert EmissionOk(n.trace, q);
    }
  }

  /** The acknowledgement number is the peer's initial sequence number plus one plus the bytes accepted if and only if
      the last accepted segment, if any, continued the stream. */
  lemma AcknowledgementAccounting(kernel: nat -> bool, es: seq<Event>, i: nat)
    requires CanRun(kernel, Init(), es) && i < MAX_SOCKETS
    requires var s := Run(kernel, Init(), es).socks[i]; s.used && s.state == Established
    ensures var n := Run(kernel, Init(), es);
            && Isn(n.trace, i).Some?
            && (n.socks[i].ack_num == (Isn(n.trace, i).value + 1 + |Rcvd(n.trace, i)|) % M32
                <==> match LastArrival(n.trace, i)
                     case None => true
                     case Some(a) => a.seq_num == (Isn(n.trace, i).value + 1 + a.before) % M32)
  {
    hide Run, CanRun, Rcvd, Sent, LastArrival, Isn;
    RunKeeps(kernel, Init(), es);
    var n := Run(kernel, Init(), es);
    assert SlotOk(n.trace, n.socks[i], i);
    match LastArrival(n.trace, i)
    case None =>
    case Some(a) => SameShift(a.seq_num, Isn(n.trace, i).value + 1 + a.before, a.len);
  }

  lemma SameShift(a: u32, b: nat, d: nat)
    ensures Mod32(a + d) == Mod32(b + d) <==> a == Mod32(b)
  {
    var r, q, p := Mod32(b + d), (b + d) / M32, (a + d) / M32;
    if Mod32(a + d) == r {
      WrapUnique(b, q - p, a);
    }
    if a == Mod32(b) {
      WrapAdd(b, d);
    }
  }

  /** In every reachable table unused slots are CLOSED and used slots know their index. */
  lemma TableSafety(kernel: nat -> bool, es: seq<Event>, i: nat)
    requires CanRun(kernel, Init(), es) && i < MAX_SOCKETS
    ensures var s := Run(kernel, Init(), es).socks[i];
            (!s.used ==> s.state == Closed) && (s.used ==> s.id == i) && s.state != FinWait
  {
    RunKeeps(kernel, Init(), es);
    var n := Run(kernel, Init(), es);
    assert SlotOk(n.trace, n.socks[i], i);
  }
}
