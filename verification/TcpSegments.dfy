/** What every emitted segment says besides its sequence number: acknowledgement, ends and flags, read off the history
    before it. */
module TcpSegments {
  import opened Bytes
  import opened Tcp
  import TcpRuns

  /** The two ends of the slot's connection: those it was opened with, the local address that of the peer's answer. */
  function Who(t: seq<Obs>, i: nat): Option<Tuple> {
    if t == [] then None
    else
      var rest, o := t[..|t| - 1], t[|t| - 1];
      if o.slot != i then Who(rest, i)
      else if o.Opens() then Some(o.who)
      else if o.Answered? && Who(rest, i).Some? then Some(Who(rest, i).value.(local_ip := o.local_ip))
      else Who(rest, i)
  }

  /** What the slot acknowledges: nothing on an unanswered connect, then the byte after the peer's SYN, then the byte
      after the last segment that arrived. */
  function Due(t: seq<Obs>, i: nat): u32 {
    if t == [] then 0
    else
      var rest, o := t[..|t| - 1], t[|t| - 1];
      if o.slot != i then Due(rest, i)
      else if o.Connecting? then 0
      else if o.Accepted? || o.Answered? then (o.isn + 1) % M32
      else if o.Received? then (o.seq_num + |o.data|) % M32
      else Due(rest, i)
  }

  lemma ExtendEnds(t: seq<Obs>, o: Obs, i: nat)
    ensures o.slot != i ==> Who(t + [o], i) == Who(t, i) && Due(t + [o], i) == Due(t, i)
    ensures o.slot == i && o.Opens() ==> Who(t + [o], i) == Some(o.who)
    ensures o.slot == i && o.Connecting? ==> Due(t + [o], i) == 0 && TcpRuns.Isn(t + [o], i) == None
    ensures o.slot == i && (o.Accepted? || o.Answered?) ==> Due(t + [o], i) == (o.isn + 1) % M32
    ensures o.slot == i && o.Answered? && Who(t, i).Some? ==>
      Who(t + [o], i) == Some(Who(t, i).value.(local_ip := o.local_ip))
    ensures o.slot == i && !o.Opens() && !o.Answered? ==> Who(t + [o], i) == Who(t, i)
    ensures o.slot == i && o.Received? ==> Due(t + [o], i) == (o.seq_num + |o.data|) % M32
    ensures o.slot == i && !o.Opens() && !o.Answered? && !o.Received? ==> Due(t + [o], i) == Due(t, i)
  {
    assert (t + [o])[..|t|] == t;
  }

  // ---- segments against the history before them ---------------------------------

  /** The flags of a segment that leaves its connection open: SYN until the peer answers, SYN and ACK right after
      accepting the peer's SYN, ACK from then on. */
  function OpenFlags(u: seq<Obs>, i: nat): u8 {
    if TcpRuns.Isn(u, i).None? then 0x02
    else if u != [] && u[|u| - 1].Accepted? then 0x12
    else 0x10
  }

  /** The flags of a closing segment: RST before the peer has answered, FIN and ACK afterwards. */
  function CloseFlags(u: seq<Obs>, i: nat): u8 {
    if TcpRuns.Isn(u, i).None? then 0x04 else 0x11
  }

  ghost predicate SaysWho(u: seq<Obs>, o: Obs)
    requires o.Emitted?
  {
    Who(u, o.slot) == Some(o.who) && o.ack_num == Due(u, o.slot) && (TcpRuns.Isn(u, o.slot).None? ==> o.data == [])
  }

  ghost predicate Booked(t: seq<Obs>, q: nat)
    requires q < |t| && t[q].Emitted?
  {
    var u, o := t[..q], t[q];
    && SaysWho(u, o)
    && (o.flags == OpenFlags(u, o.slot) ||
        (o.flags == CloseFlags(u, o.slot) && Settled(u) && o.data == [] && q + 1 < |t| && t[q + 1] == Freed(o.slot)))
  }

  ghost predicate AllBooked(t: seq<Obs>) {
    forall q :: 0 <= q < |t| && t[q].Emitted? ==> Booked(t, q)
  }

  /** An active socket holds the ends and the acknowledgement that the history gives. */
  ghost predicate Knows(t: seq<Obs>, s: Socket, i: nat) {
    TcpRuns.Active(s) ==>
      && Who(t, i) == Some(Tuple(s.local_ip, s.remote_ip, s.local_port, s.remote_port))
      && s.ack_num == Due(t, i) && (s.state == SynSent <==> TcpRuns.Isn(t, i).None?)
  }

  /** Between events no accepted SYN waits for its answer. */
  predicate Settled(t: seq<Obs>) { t == [] || !t[|t| - 1].Accepted? }

  ghost predicate Books(n: Net) {
    |n.socks| == MAX_SOCKETS && AllBooked(n.trace) && Settled(n.trace) &&
    forall i :: 0 <= i < MAX_SOCKETS ==> Knows(n.trace, n.socks[i], i)
  }

  ghost predicate BooksBut(n: Net, j: nat) {
    |n.socks| == MAX_SOCKETS && AllBooked(n.trace) && forall i :: 0 <= i < MAX_SOCKETS && i != j ==> Knows(n.trace, n.socks[i], i)
  }

  /** What an observation does to what is read at slot i. */
  lemma Seen(t: seq<Obs>, o: Obs, i: nat)
    ensures o.slot != i ==> Who(t + [o], i) == Who(t, i) && Due(t + [o], i) == Due(t, i) && TcpRuns.Isn(t + [o], i) == TcpRuns.Isn(t, i)
    ensures o.slot == i && (o.Emitted? || o.CraftFailed? || o.Delivered? || o.Freed?) ==>
      Who(t + [o], i) == Who(t, i) && Due(t + [o], i) == Due(t, i) && TcpRuns.Isn(t + [o], i) == TcpRuns.Isn(t, i)
    ensures o.slot == i && o.Received? ==> Who(t + [o], i) == Who(t, i) && TcpRuns.Isn(t + [o], i) == TcpRuns.Isn(t, i)
    ensures o.slot == i && (o.Accepted? || o.Answered?) ==> TcpRuns.Isn(t + [o], i) == Some(o.isn)
  {
    ExtendEnds(t, o, i);
    TcpRuns.Extend(t, o, i);
  }

  lemma Enter(n: Net, j: nat, s: Socket, o: Obs)
    requires BooksBut(n, j) && j < MAX_SOCKETS && o.slot == j
    requires o.Emitted? ==> SaysWho(n.trace, o) && o.flags == OpenFlags(n.trace, j)
    ensures BooksBut(n.With(j, s).Note(o), j)
  {
    hide Who, Due, TcpRuns.Isn, OpenFlags, CloseFlags, SaysWho;
    var m := n.With(j, s).Note(o);
    forall i | 0 <= i < MAX_SOCKETS && i != j ensures Knows(m.trace, m.socks[i], i) {
      assert Knows(n.trace, n.socks[i], i);
      Seen(n.trace, o, i);
    }
    forall q | 0 <= q < |m.trace| && m.trace[q].Emitted? ensures Booked(m.trace, q) {
      if q < |n.trace| {
        assert Booked(n.trace, q);
        assert m.trace[..q] == n.trace[..q];
      } else {
        assert m.trace[..q] == n.trace;
      }
    }
  }

  /** A closing segment and the freeing after it. */
  lemma EnterClose(n: Net, j: nat, s: Socket, o: Obs)
    requires BooksBut(n, j) && j < MAX_SOCKETS && o.slot == j && (o.Emitted? || o.CraftFailed?)
    requires Settled(n.trace)
    requires o.Emitted? ==> SaysWho(n.trace, o) && o.flags == CloseFlags(n.trace, j) && o.data == []
    ensures BooksBut(n.With(j, s).Note(o).Note(Freed(j)), j)
  {
    hide Who, Due, TcpRuns.Isn, OpenFlags, CloseFlags, SaysWho;
    var m := n.With(j, s).Note(o).Note(Freed(j));
    forall i | 0 <= i < MAX_SOCKETS && i != j ensures Knows(m.trace, m.socks[i], i) {
      assert Knows(n.trace, n.socks[i], i);
      Seen(n.trace, o, i);
      Seen(n.trace + [o], Freed(j), i);
    }
    forall q | 0 <= q < |m.trace| && m.trace[q].Emitted? ensures Booked(m.trace, q) {
      if q < |n.trace| {
        assert Booked(n.trace, q);
        assert m.trace[..q] == n.trace[..q];
      } else {
        assert m.trace[..q] == n.trace && m.trace[q + 1] == Freed(j);
      }
    }
  }

  /** A segment with open flags from an active socket. */
  lemma SendBooks(kernel: nat -> bool, n: Net, i: nat, data: seq<u8>, flags: u8)
    requires BooksBut(n, i) && i < MAX_SOCKETS && TcpRuns.Active(n.socks[i]) && Knows(n.trace, n.socks[i], i)
    requires |data| < M32 && flags == OpenFlags(n.trace, i) && (n.socks[i].state == SynSent ==> data == [])
    ensures var m := Send(kernel, n, i, data, flags);
            && Books(m) && m.socks == n.socks[i := n.socks[i].(seq_num := m.socks[i].seq_num)]
            && TcpRuns.Isn(m.trace, i) == TcpRuns.Isn(n.trace, i)
  {
    hide Who, Due, TcpRuns.Isn, OpenFlags;
    var s := n.socks[i];
    var o := if kernel(|n.trace|) then Emission(i, s, flags, data) else CraftFailed(i);
    var t := if kernel(|n.trace|) then s.(seq_num := Add32(s.seq_num, |data|)) else s;
    assert n.socks[i := s] == n.socks;
    Enter(n, i, t, o);
    Seen(n.trace, o, i);
    assert Knows(n.trace + [o], t, i);
  }

  /** Storing a number changes no book. */
  lemma Renumber(n: Net, i: nat, seq_num: u32)
    requires Books(n) && i < MAX_SOCKETS
    ensures Books(n.With(i, n.socks[i].(seq_num := seq_num)))
  {
    hide Who, Due, TcpRuns.Isn, AllBooked;
    var m := n.With(i, n.socks[i].(seq_num := seq_num));
    forall j | 0 <= j < MAX_SOCKETS ensures Knows(m.trace, m.socks[j], j) {
      assert Knows(n.trace, n.socks[j], j);
    }
  }

  lemma FreeBooks(n: Net, i: nat)
    requires BooksBut(n, i) && i < MAX_SOCKETS
    ensures Books(Free(n, i))
  {
    hide Who, Due, TcpRuns.Isn, AllBooked;
    Enter(n, i, n.socks[i].(used := false, state := Closed), Freed(i));
  }

  lemma ButOne(n: Net, i: nat)
    requires Books(n) && i < MAX_SOCKETS
    ensures BooksBut(n, i) && Knows(n.trace, n.socks[i], i)
  {
  }

  /** An opening event, and the segment right after it. */
  lemma OpenBooks(kernel: nat -> bool, n: Net, j: nat, s: Socket, o: Obs, flags: u8)
    requires Books(n) && j < MAX_SOCKETS && o.slot == j && (o.Opens() || o.Answered?)
    requires TcpRuns.Active(s) && Knows(n.trace + [o], s, j) && flags == OpenFlags(n.trace + [o], j)
    ensures Books(Send(kernel, n.With(j, s).Note(o), j, [], flags))
  {
    hide Who, Due, TcpRuns.Isn, OpenFlags, AllBooked;
    ButOne(n, j);
    Enter(n, j, s, o);
    SendBooks(kernel, n.With(j, s).Note(o), j, [], flags);
  }

  lemma PassiveOpenBooks(kernel: nat -> bool, n: Net, p: Packet)
    requires Books(n)
    ensures Books(PassiveOpen(kernel, n, p))
  {
    var j := FreeSlot(n.socks, 0);
    if j < MAX_SOCKETS {
      hide Who, Due, TcpRuns.Isn, AllBooked;
      var s := Taken(n.socks[j], j).(remote_ip := p.src_ip, local_ip := p.dst_ip, local_port := p.dest_port,
                                     remote_port := p.source_port, state := Established,
                                     seq_num := 0, ack_num := Add32(p.seq_num, 1));
      var o := Accepted(j, p.seq_num, Tuple(p.dst_ip, p.src_ip, p.dest_port, p.source_port));
      ExtendEnds(n.trace, o, j);
      Seen(n.trace, o, j);
      TcpRuns.AddMod(p.seq_num, 1);
      OpenBooks(kernel, n, j, s, o, SYN + ACK);
      Renumber(Send(kernel, n.With(j, s).Note(o), j, [], SYN + ACK), j, 1);
    }
  }

  lemma AnswerBooks(kernel: nat -> bool, n: Net, i: nat, p: Packet)
    requires Books(n) && i < MAX_SOCKETS && n.socks[i].used && n.socks[i].state == SynSent
    ensures Books(Answer(kernel, n, i, p))
  {
    hide Who, Due, TcpRuns.Isn, AllBooked;
    var s := n.socks[i].(local_ip := p.dst_ip, ack_num := Add32(p.seq_num, 1), state := Established);
    var o := Answered(i, p.seq_num, p.dst_ip);
    assert Knows(n.trace, n.socks[i], i);
    ExtendEnds(n.trace, o, i);
    Seen(n.trace, o, i);
    TcpRuns.AddMod(p.seq_num, 1);
    OpenBooks(kernel, n, i, s, o, ACK);
  }

  lemma ReceiveBooks(kernel: nat -> bool, n: Net, i: nat, p: Packet)
    requires Books(n) && i < MAX_SOCKETS && n.socks[i].used && n.socks[i].state == Established && p.Valid()
    ensures Books(Receive(kernel, n, i, p))
    ensures var r := Receive(kernel, n, i, p).socks[i]; r.used && r.state == Established
  {
    hide Who, Due, TcpRuns.Isn, AllBooked;
    var s := n.socks[i].(rx_buffer := Filled(n.socks[i].rx_buffer, p.Data()), rx_len := |p.Data()|,
                         ack_num := Add32(p.seq_num, |p.Data()|));
    var o := Received(i, p.seq_num, p.Data());
    ButOne(n, i);
    ExtendEnds(n.trace, o, i);
    Seen(n.trace, o, i);
    TcpRuns.AddMod(p.seq_num, |p.Data()|);
    Enter(n, i, s, o);
    SendBooks(kernel, n.With(i, s).Note(o), i, [], ACK);
  }

  lemma InConnectionBooks(kernel: nat -> bool, n: Net, i: nat, p: Packet)
    requires Books(n) && i < MAX_SOCKETS && n.socks[i].used && n.socks[i].state == Established && p.Valid()
    ensures Books(InConnection(kernel, n, i, p))
  {
    hide Who, Due, TcpRuns.Isn, AllBooked;
    var m := n;
    if p.Data() != [] {
      ReceiveBooks(kernel, n, i, p);
      m := Receive(kernel, n, i, p);
    }
    if p.Has(FIN) {
      ButOne(m, i);
      SendBooks(kernel, m, i, [], ACK);
      ButOne(Send(kernel, m, i, [], ACK), i);
      FreeBooks(Send(kernel, m, i, [], ACK), i);
    }
  }

  lemma HandleBooks(kernel: nat -> bool, n: Net, p: Packet, i: nat)
    requires Books(n) && |n.socks| == MAX_SOCKETS && i < MAX_SOCKETS && p.Valid()
    ensures Books(Handle(kernel, n, p, i).0)
  {
    hide Books, BooksBut, PassiveOpen, Answer, InConnection;
    var s := n.socks[i];
    if s.used && s.local_port == p.dest_port {
      if s.state == Listening && p.Has(SYN) {
        PassiveOpenBooks(kernel, n, p);
      } else if s.state == SynSent && p.Has(RST) {
        ButOne(n, i);
        FreeBooks(n, i);
      } else if s.state == SynSent && p.Has(SYN) && p.Has(ACK) && p.From(s) {
        AnswerBooks(kernel, n, i, p);
      } else if s.state == Established && p.From(s) {
        ButOne(n, i);
        if p.Has(RST) {
          FreeBooks(n, i);
        } else {
          InConnectionBooks(kernel, n, i, p);
        }
      }
    }
  }

  lemma {:induction false} OnPacketBooks(kernel: nat -> bool, n: Net, p: Packet, i: nat)
    requires Books(n) && |n.socks| == MAX_SOCKETS && i <= MAX_SOCKETS && p.Valid()
    ensures Books(OnPacket(kernel, n, p, i))
    decreases MAX_SOCKETS - i
  {
    hide Books, Handle;
    if i < MAX_SOCKETS {
      HandleBooks(kernel, n, p, i);
      OnPacketBooks(kernel, Handle(kernel, n, p, i).0, p, i + 1);
    }
  }

  lemma ConnectBooks(kernel: nat -> bool, n: Net, j: nat, rip: Ip4, rport: u16, lport: u16, lip: Ip4)
    requires Books(n) && j < MAX_SOCKETS
    ensures Books(Connect(kernel, n, j, rip, rport, lport, lip))
  {
    hide Who, Due, TcpRuns.Isn, AllBooked;
    var s := Taken(n.socks[j], j).(remote_ip := rip, local_ip := lip, remote_port := rport,
                                   local_port := lport, seq_num := 0, ack_num := 0, state := SynSent);
    var o := Connecting(j, Tuple(lip, rip, lport, rport));
    ExtendEnds(n.trace, o, j);
    OpenBooks(kernel, n, j, s, o, SYN);
    Renumber(Send(kernel, n.With(j, s).Note(o), j, [], SYN), j, 1);
  }

  lemma ResendBooks(kernel: nat -> bool, n: Net, i: nat)
    requires Books(n) && i < MAX_SOCKETS && n.socks[i].used && n.socks[i].state == SynSent
    ensures Books(ResendSyn(kernel, n, i))
  {
    hide Who, Due, TcpRuns.Isn, AllBooked;
    Renumber(n, i, 0);
    var z := n.With(i, n.socks[i].(seq_num := 0));
    ButOne(z, i);
    SendBooks(kernel, z, i, [], SYN);
    Renumber(Send(kernel, z, i, [], SYN), i, 1);
  }

  lemma CloseBooks(kernel: nat -> bool, n: Net, i: nat)
    requires Books(n) && i < MAX_SOCKETS && n.socks[i].state != FinWait && (!n.socks[i].used ==> n.socks[i].state == Closed)
    ensures Books(Close(kernel, n, i))
  {
    hide Who, Due, TcpRuns.Isn, AllBooked;
    ButOne(n, i);
    var s := n.socks[i];
    if s.state == Established || s.state == SynSent {
      var flags := if s.state == Established then FIN + ACK else RST;
      var o := if kernel(|n.trace|) then Emission(i, s, flags, []) else CraftFailed(i);
      EnterClose(n, i, s.(used := false, state := Closed), o);
      CloseIs(kernel, n, i, flags, o);
    } else {
      FreeBooks(n, i);
    }
  }

  lemma CloseIs(kernel: nat -> bool, n: Net, i: nat, flags: u8, o: Obs)
    requires |n.socks| == MAX_SOCKETS && i < MAX_SOCKETS
    requires n.socks[i].state == Established || n.socks[i].state == SynSent
    requires flags == if n.socks[i].state == Established then FIN + ACK else RST
    requires o == if kernel(|n.trace|) then Emission(i, n.socks[i], flags, []) else CraftFailed(i)
    ensures Close(kernel, n, i) == n.With(i, n.socks[i].(used := false, state := Closed)).Note(o).Note(Freed(i))
  {
    var s := n.socks[i];
    assert s.(seq_num := Add32(s.seq_num, 0)) == s && n.socks[i := s] == n.socks;
  }

  lemma StepBooks(kernel: nat -> bool, n: Net, e: Event)
    requires n.Sized() && TcpRuns.Inv(n) && Enabled(n, e) && Books(n)
    ensures Books(Step(kernel, n, e))
  {
    hide Books, TcpRuns.SendOk, TcpRuns.AckOk, TcpRuns.EmissionsOk, Connect, Close, ResendSyn, OnPacket;
    match e
    case PacketIn(p) => OnPacketBooks(kernel, n, p, 0);
    case ConnectTo(rip, rport, lport, lip) =>
      if FreeSlot(n.socks, 0) < MAX_SOCKETS {
        ConnectBooks(kernel, n, FreeSlot(n.socks, 0), rip, rport, lport, lip);
      }
    case SocketTcp4 =>
      var j := FreeSlot(n.socks, 0);
      if j < MAX_SOCKETS {
        QuietSlot(n, j, Taken(n.socks[j], j).(state := Closed));
      }
    case Bind(i, port) => QuietSlot(n, i, n.socks[i].(local_port := port));
    case Listen(i) => QuietSlot(n, i, n.socks[i].(state := Listening));
    case ReadFrom(i, maxlen) => ReadBooks(n, i, maxlen);
    case WriteTo(i, data) =>
      assert TcpRuns.SlotOk(n.trace, n.socks[i], i);
      WriteBooks(kernel, n, i, data);
    case CloseSlot(i) =>
      assert TcpRuns.SlotOk(n.trace, n.socks[i], i);
      CloseBooks(kernel, n, i);
    case ResendSynOn(i) =>
      assert TcpRuns.SlotOk(n.trace, n.socks[i], i);
      ResendBooks(kernel, n, i);
  }

  lemma QuietSlot(n: Net, i: nat, s: Socket)
    requires Books(n) && i < MAX_SOCKETS && !TcpRuns.Active(s)
    ensures Books(n.With(i, s))
  {
    hide Who, Due, TcpRuns.Isn, AllBooked;
    var m := n.With(i, s);
    forall j | 0 <= j < MAX_SOCKETS ensures Knows(m.trace, m.socks[j], j) {
      assert Knows(n.trace, n.socks[j], j);
    }
  }

  lemma ReadBooks(n: Net, i: nat, maxlen: u32)
    requires n.Sized() && Books(n) && Enabled(n, ReadFrom(i, maxlen))
    ensures Books(Read(n, i, maxlen))
  {
    hide Who, Due, TcpRuns.Isn, AllBooked;
    var o := Delivered(i, Take(n.socks[i], maxlen));
    ButOne(n, i);
    Enter(n, i, n.socks[i].(rx_len := 0), o);
    Seen(n.trace, o, i);
    assert Knows(n.trace + [o], n.socks[i].(rx_len := 0), i);
  }

  lemma WriteBooks(kernel: nat -> bool, n: Net, i: nat, data: seq<u8>)
    requires Books(n) && i < MAX_SOCKETS && n.socks[i].used && n.socks[i].state == Established && |data| < M32
    ensures Books(Send(kernel, n, i, data, ACK))
  {
    hide Who, Due, TcpRuns.Isn, AllBooked;
    ButOne(n, i);
    SendBooks(kernel, n, i, data, ACK);
  }

  lemma {:induction false} RunBooks(kernel: nat -> bool, n: Net, es: seq<Event>)
    requires n.Sized() && TcpRuns.Inv(n) && CanRun(kernel, n, es) && Books(n)
    ensures Books(Run(kernel, n, es))
    decreases |es|
  {
    hide Books, TcpRuns.Inv, Step, Enabled;
    if es != [] {
      TcpRuns.StepKeeps(kernel, n, es[0]);
      StepSized(kernel, n, es[0]);
      StepBooks(kernel, n, es[0]);
      RunBooks(kernel, Step(kernel, n, es[0]), es[1..]);
    }
  }

  // ---- main results ---------------------------------------------------------------

  /** Over every run, each emitted segment names the ends its connection was opened with, and acknowledges nothing on an
      unanswered connect, the peer's SYN before any data, and the end of the last segment that arrived afterwards. Its
      flags are SYN until the peer answers, SYN and ACK right after accepting, ACK later on; or it closes the
      connection, by RST before an answer and by FIN and ACK after one, and the slot is freed right behind it. */
  lemma EverySegment(kernel: nat -> bool, es: seq<Event>, q: nat)
    requires CanRun(kernel, Init(), es)
    requires q < |Run(kernel, Init(), es).trace| && Run(kernel, Init(), es).trace[q].Emitted?
    ensures var t := Run(kernel, Init(), es).trace;
            var u, o := t[..q], t[q];
            var answered := TcpRuns.Isn(u, o.slot).Some?;
            var accepting := u != [] && u[|u| - 1].Accepted?;
            var closing := q + 1 < |t| && t[q + 1] == Freed(o.slot);
            && Who(u, o.slot) == Some(o.who) && o.ack_num == Due(u, o.slot)
            && (!answered ==> o.data == [] && (o.flags == 0x02 || (o.flags == 0x04 && closing)))
            && (answered && accepting ==> o.flags == 0x12)
            && (answered && !accepting ==> o.flags == 0x10 || (o.flags == 0x11 && closing && o.data == []))
  {
    RunBooks(kernel, Init(), es);
    assert Booked(Run(kernel, Init(), es).trace, q);
  }

  /** A RST goes out only to give up a connection this side opened and nobody answered, and ends it. */
  lemma ResetsGiveUp(kernel: nat -> bool, es: seq<Event>, q: nat)
    requires CanRun(kernel, Init(), es)
    requires var t := Run(kernel, Init(), es).trace; q < |t| && t[q].Emitted? && t[q].flags / 0x04 % 2 == 1
    ensures var t := Run(kernel, Init(), es).trace;
            && t[q].flags == 0x04 && q + 1 < |t| && t[q + 1] == Freed(t[q].slot)
            && TcpRuns.Isn(t[..q], t[q].slot).None? && Who(t[..q], t[q].slot).Some?
  {
    EverySegment(kernel, es, q);
  }
}
