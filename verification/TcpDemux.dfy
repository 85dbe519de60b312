/** Demultiplexing in the socket table, and what the receive buffer conserves. */
module TcpDemux {
  import opened Bytes
  import opened Tcp
  import opened TcpRuns

  // ---- demultiplexing ------------------------------------------------------

  predicate SameTuple(a: Socket, b: Socket) {
    a.remote_ip == b.remote_ip && a.remote_port == b.remote_port && a.local_port == b.local_port
  }

  /** Active slots have pairwise distinct (remote ip, remote port, local port). */
  ghost predicate Distinct(n: Net) {
    forall i, j :: 0 <= i < j < |n.socks| && Active(n.socks[i]) && Active(n.socks[j]) ==> !SameTuple(n.socks[i], n.socks[j])
  }

  /** s is the connection p belongs to. */
  predicate Owns(s: Socket, p: Packet) {
    Active(s) && p.From(s) && s.local_port == p.dest_port
  }

  /** A SYN that a listener would take belongs to no active connection. */
  ghost predicate FreshSyn(n: Net, p: Packet) {
    p.Has(SYN) && (exists l :: 0 <= l < |n.socks| && Listens(n.socks[l], p.dest_port)) ==>
      forall i :: 0 <= i < |n.socks| ==> !Owns(n.socks[i], p)
  }

  predicate Listens(s: Socket, port: u16) {
    s.used && s.state == Listening && s.local_port == port
  }

  /** m differs from n at most in slot j. */
  ghost predicate OnlySlot(n: Net, m: Net, j: nat) {
    |m.socks| == |n.socks| && forall i :: 0 <= i < |n.socks| && i != j ==> m.socks[i] == n.socks[i]
  }

  /** The slot an iteration at i works on. */
  function Target(n: Net, p: Packet, i: nat): nat
    requires i < |n.socks|
  {
    if Listens(n.socks[i], p.dest_port) && p.Has(SYN) then FreeSlot(n.socks, 0) else i
  }

  lemma HandleOnlyTarget(kernel: nat -> bool, n: Net, p: Packet, i: nat)
    requires |n.socks| == MAX_SOCKETS && i < MAX_SOCKETS && p.Valid()
    ensures OnlySlot(n, Handle(kernel, n, p, i).0, Target(n, p, i))
  {
  }

  /** A packet never touches a listener. */
  lemma {:induction false} ListenerKept(kernel: nat -> bool, n: Net, p: Packet, i: nat, l: nat)
    requires |n.socks| == MAX_SOCKETS && i <= MAX_SOCKETS && l < MAX_SOCKETS && p.Valid()
    requires n.socks[l].used && n.socks[l].state == Listening
    ensures OnPacket(kernel, n, p, i).socks[l] == n.socks[l]
    decreases MAX_SOCKETS - i
  {
    if i < MAX_SOCKETS {
      HandleOnlyTarget(kernel, n, p, i);
      ListenerKept(kernel, Handle(kernel, n, p, i).0, p, i + 1, l);
    }
  }

  /** Slots from i on have nothing to do with p. */
  ghost predicate Idle(n: Net, p: Packet, i: nat) {
    forall k :: i <= k < |n.socks| ==>
      && !Owns(n.socks[k], p)
      && !(Listens(n.socks[k], p.dest_port) && p.Has(SYN))
      && !(n.socks[k].used && n.socks[k].state == SynSent && n.socks[k].local_port == p.dest_port && p.Has(RST))
  }

  lemma {:induction false} IdleUnchanged(kernel: nat -> bool, n: Net, p: Packet, i: nat)
    requires |n.socks| == MAX_SOCKETS && i <= MAX_SOCKETS && p.Valid() && Idle(n, p, i)
    ensures OnPacket(kernel, n, p, i) == n
    decreases MAX_SOCKETS - i
  {
    if i < MAX_SOCKETS {
      IdleUnchanged(kernel, n, p, i + 1);
    }
  }

  /** Once the owner of a packet has handled it, no later slot does anything. */
  lemma OwnerOnly(kernel: nat -> bool, n: Net, p: Packet, i: nat)
    requires |n.socks| == MAX_SOCKETS && i < MAX_SOCKETS && p.Valid() && Distinct(n) && FreshSyn(n, p)
    requires Owns(n.socks[i], p) && !Handle(kernel, n, p, i).1
    ensures OnPacket(kernel, n, p, i) == Handle(kernel, n, p, i).0
  {
    var m := Handle(kernel, n, p, i).0;
    HandleOnlyTarget(kernel, n, p, i);
    if n.socks[i].state == Established {
      forall k | i + 1 <= k < MAX_SOCKETS
        ensures !Owns(m.socks[k], p) && !(Listens(m.socks[k], p.dest_port) && p.Has(SYN)) && !p.Has(RST)
      {
        assert m.socks[k] == n.socks[k];
        assert Owns(n.socks[k], p) ==> SameTuple(n.socks[i], n.socks[k]);
      }
      IdleUnchanged(kernel, m, p, i + 1);
    } else {
      // a SYN_SENT owner that does not answer ignores the packet, and so does everyone after it
      assert m == n && !p.Has(RST);
      forall k | i + 1 <= k < MAX_SOCKETS
        ensures !Owns(n.socks[k], p) && !(Listens(n.socks[k], p.dest_port) && p.Has(SYN))
      {
        assert Owns(n.socks[k], p) ==> SameTuple(n.socks[i], n.socks[k]);
      }
      IdleUnchanged(kernel, n, p, i + 1);
    }
  }

  /** Each packet changes at most one slot: its own connection's, the one a listener opens for it, or one it resets. */
  lemma {:induction false} AtMostOneSlot(kernel: nat -> bool, n: Net, p: Packet, i: nat) returns (j: nat)
    requires |n.socks| == MAX_SOCKETS && i <= MAX_SOCKETS && p.Valid() && Distinct(n) && FreshSyn(n, p)
    ensures OnlySlot(n, OnPacket(kernel, n, p, i), j)
    ensures Distinct(OnPacket(kernel, n, p, i))
    ensures j < MAX_SOCKETS && OnPacket(kernel, n, p, i).socks[j] != n.socks[j] ==> Touches(n.socks, p, i, j)
    decreases MAX_SOCKETS - i
  {
    j := 0;
    if i < MAX_SOCKETS {
      HandleOnlyTarget(kernel, n, p, i);
      var (m, stop) := Handle(kernel, n, p, i);
      if stop || Owns(n.socks[i], p) {
        j := Target(n, p, i);
        if !stop {
          OwnerOnly(kernel, n, p, i);
        }
        DistinctKept(kernel, n, p, i);
      } else {
        assert m == n;
        j := AtMostOneSlot(kernel, n, p, i + 1);
      }
      if j < MAX_SOCKETS && !Owns(n.socks[j], p) {
        StrayChange(kernel, n, p, i, j);
      }
    }
  }

  lemma DistinctKept(kernel: nat -> bool, n: Net, p: Packet, i: nat)
    requires |n.socks| == MAX_SOCKETS && i < MAX_SOCKETS && p.Valid() && Distinct(n) && FreshSyn(n, p)
    ensures Distinct(Handle(kernel, n, p, i).0)
  {
    HandleOnlyTarget(kernel, n, p, i);
    var m, j := Handle(kernel, n, p, i).0, Target(n, p, i);
    forall a, b | 0 <= a < b < MAX_SOCKETS && Active(m.socks[a]) && Active(m.socks[b])
      ensures !SameTuple(m.socks[a], m.socks[b])
    {
      if a != j && b != j {
        assert m.socks[a] == n.socks[a] && m.socks[b] == n.socks[b];
      } else {
        var c := if a == j then b else a;
        assert m.socks[c] == n.socks[c];
        if Listens(n.socks[i], p.dest_port) && p.Has(SYN) {
          assert !Owns(n.socks[c], p);
        } else {
          assert SameTuple(m.socks[j], n.socks[j]) && (Active(m.socks[j]) ==> Active(n.socks[j]));
        }
      }
    }
  }

  // ---- which slots a packet reaches, opens, ends and resets -------------------

  /** s is the established connection p belongs to. */
  predicate OfConnection(s: Socket, p: Packet) {
    s.used && s.state == Established && s.local_port == p.dest_port && p.From(s)
  }

  /** A slot at which on_tcp_packet returns. */
  predicate Stops(s: Socket, p: Packet) {
    s.used && s.local_port == p.dest_port &&
    match s.state
    case Listening => p.Has(SYN)
    case SynSent => p.Has(RST) || (p.Has(SYN) && p.Has(ACK) && p.From(s))
    case Established => p.From(s) && p.Has(RST)
    case _ => false
  }

  /** The packet finishes the connection in s and the loop goes on. */
  predicate Ends(s: Socket, p: Packet) {
    OfConnection(s, p) && !p.Has(RST) && p.Has(FIN)
  }

  predicate Reached(socks: seq<Socket>, p: Packet, k: nat, i: nat) {
    k <= i < |socks| && forall j :: k <= j < i ==> !Stops(socks[j], p)
  }

  /** The slot a SYN opens when the loop runs from k on, if it meets a listener and a slot is free by then. */
  function Opened(socks: seq<Socket>, p: Packet, k: nat): Option<nat>
    requires k <= |socks|
    decreases |socks| - k
  {
    if k == |socks| then None
    else if Stops(socks[k], p) then
      if socks[k].state == Listening && FreeSlot(socks, 0) < |socks| then Some(FreeSlot(socks, 0)) else None
    else Opened(if Ends(socks[k], p) then socks[k := socks[k].(used := false)] else socks, p, k + 1)
  }

  /** A connecting slot that a RST to its port frees, whoever sent it. */
  predicate ResetAt(socks: seq<Socket>, p: Packet, k: nat, i: nat) {
    Reached(socks, p, k, i) && socks[i].used && socks[i].state == SynSent && socks[i].local_port == p.dest_port && p.Has(RST)
  }

  /** The reasons for a packet to change a slot. */
  predicate Touches(socks: seq<Socket>, p: Packet, k: nat, i: nat)
    requires k <= |socks|
  {
    i < |socks| && (Owns(socks[i], p) || Opened(socks, p, k) == Some(i) || ResetAt(socks, p, k, i))
  }

  lemma HandleShape(kernel: nat -> bool, n: Net, p: Packet, k: nat)
    requires |n.socks| == MAX_SOCKETS && k < MAX_SOCKETS && p.Valid()
    ensures var (m, stop) := Handle(kernel, n, p, k);
            && stop == Stops(n.socks[k], p)
            && (!stop ==> OnlySlot(n, m, k) && m.socks[k].used == (n.socks[k].used && !Ends(n.socks[k], p)))
  {
  }

  lemma {:induction false} FreeSlotSame(a: seq<Socket>, b: seq<Socket>, i: nat)
    requires |a| == |b| && i <= |a| && forall j :: 0 <= j < |a| ==> a[j].used == b[j].used
    ensures FreeSlot(a, i) == FreeSlot(b, i)
    decreases |a| - i
  {
    if i < |a| {
      FreeSlotSame(a, b, i + 1);
    }
  }

  /** Opened depends on the slots still to come and on which slots are used. */
  lemma {:induction false} OpenedSame(a: seq<Socket>, b: seq<Socket>, p: Packet, k: nat)
    requires |a| == |b| && k <= |a| && forall j :: k <= j < |a| ==> a[j] == b[j]
    requires forall j :: 0 <= j < |a| ==> a[j].used == b[j].used
    ensures Opened(a, p, k) == Opened(b, p, k)
    decreases |a| - k
  {
    if k < |a| {
      FreeSlotSame(a, b, 0);
      if Ends(a[k], p) {
        OpenedSame(a[k := a[k].(used := false)], b[k := b[k].(used := false)], p, k + 1);
      } else {
        OpenedSame(a, b, p, k + 1);
      }
    }
  }

  /** The rest of the loop opens what the whole loop would. */
  lemma OpenedNext(kernel: nat -> bool, n: Net, p: Packet, k: nat)
    requires |n.socks| == MAX_SOCKETS && k < MAX_SOCKETS && p.Valid() && !Stops(n.socks[k], p)
    ensures Opened(n.socks, p, k) == Opened(Handle(kernel, n, p, k).0.socks, p, k + 1)
  {
    HandleShape(kernel, n, p, k);
    var b := if Ends(n.socks[k], p) then n.socks[k := n.socks[k].(used := false)] else n.socks;
    OpenedSame(Handle(kernel, n, p, k).0.socks, b, p, k + 1);
  }

  /** Exactly two ways to change a slot that does not own the packet: a SYN opens it, or a RST, from any address,
      hits a connecting slot's port. */
  lemma {:induction false} StrayChange(kernel: nat -> bool, n: Net, p: Packet, k: nat, i: nat)
    requires |n.socks| == MAX_SOCKETS && k <= MAX_SOCKETS && i < MAX_SOCKETS && p.Valid()
    requires i < k || !Owns(n.socks[i], p)
    ensures OnPacket(kernel, n, p, k).socks[i] != n.socks[i]
      <==> Opened(n.socks, p, k) == Some(i) || ResetAt(n.socks, p, k, i)
    decreases MAX_SOCKETS - k
  {
    if k < MAX_SOCKETS {
      HandleShape(kernel, n, p, k);
      HandleOnlyTarget(kernel, n, p, k);
      if !Stops(n.socks[k], p) {
        var m := Handle(kernel, n, p, k).0;
        OpenedNext(kernel, n, p, k);
        StrayChange(kernel, m, p, k + 1, i);
      }
    }
  }

  /** When a SYN opens a slot for the listener in slot l, tuples stay distinct exactly if no active connection has its
      tuple, or the same packet finished that connection earlier in the loop: a repeated SYN takes a second slot. */
  lemma {:induction false} RepeatedSynDuplicates(kernel: nat -> bool, n: Net, p: Packet, k: nat, l: nat)
    requires |n.socks| == MAX_SOCKETS && p.Valid() && Distinct(n)
    requires Reached(n.socks, p, k, l) && Listens(n.socks[l], p.dest_port) && p.Has(SYN) && Opened(n.socks, p, k).Some?
    ensures Distinct(OnPacket(kernel, n, p, k)) <==>
      forall i :: 0 <= i < MAX_SOCKETS && Owns(n.socks[i], p) ==> k <= i < l && Ends(n.socks[i], p)
    decreases MAX_SOCKETS - k
  {
    if k == l {
      SynDuplicates(kernel, n, p, l);
    } else {
      var m := Handle(kernel, n, p, k).0;
      HandleShape(kernel, n, p, k);
      OpenedNext(kernel, n, p, k);
      ConnectionsKept(kernel, n, p, k);
      RepeatedSynDuplicates(kernel, m, p, k + 1, l);
    }
  }

  /** An iteration that does not stop keeps every tuple, and every connection it does not finish. */
  lemma ConnectionsKept(kernel: nat -> bool, n: Net, p: Packet, k: nat)
    requires |n.socks| == MAX_SOCKETS && k < MAX_SOCKETS && p.Valid() && Distinct(n) && !Stops(n.socks[k], p)
    ensures var m := Handle(kernel, n, p, k).0;
            && Distinct(m) && OnlySlot(n, m, k)
            && (Owns(m.socks[k], p) <==> Owns(n.socks[k], p) && !Ends(n.socks[k], p))
  {
    HandleOnlyTarget(kernel, n, p, k);
    var m := Handle(kernel, n, p, k).0;
    assert SameTuple(m.socks[k], n.socks[k]) && (Active(m.socks[k]) ==> Active(n.socks[k]));
    forall a, b | 0 <= a < b < MAX_SOCKETS && Active(m.socks[a]) && Active(m.socks[b])
      ensures !SameTuple(m.socks[a], m.socks[b])
    {
      assert !SameTuple(n.socks[a], n.socks[b]);
    }
  }

  lemma SynDuplicates(kernel: nat -> bool, n: Net, p: Packet, l: nat)
    requires |n.socks| == MAX_SOCKETS && l < MAX_SOCKETS && p.Valid() && Distinct(n)
    requires Listens(n.socks[l], p.dest_port) && p.Has(SYN) && FreeSlot(n.socks, 0) < MAX_SOCKETS
    ensures Distinct(OnPacket(kernel, n, p, l)) <==> forall i :: 0 <= i < MAX_SOCKETS ==> !Owns(n.socks[i], p)
  {
    var m, j := Handle(kernel, n, p, l).0, FreeSlot(n.socks, 0);
    HandleOnlyTarget(kernel, n, p, l);
    assert OnPacket(kernel, n, p, l) == m;
    if forall i :: 0 <= i < MAX_SOCKETS ==> !Owns(n.socks[i], p) {
      DistinctKept(kernel, n, p, l);
    } else {
      var i :| 0 <= i < MAX_SOCKETS && Owns(n.socks[i], p);
      assert i != j && m.socks[i] == n.socks[i];
      assert Active(m.socks[j]) && SameTuple(m.socks[i], m.socks[j]) && SameTuple(m.socks[j], m.socks[i]);
      assert i < j || j < i;
    }
  }

  /** A new active connection on a fresh tuple keeps the tuples distinct. */
  lemma ConnectDistinct(kernel: nat -> bool, n: Net, j: nat, rip: Ip4, rport: u16, lport: u16, lip: Ip4)
    requires |n.socks| == MAX_SOCKETS && j < MAX_SOCKETS && Distinct(n) && !n.socks[j].used
    ensures Distinct(Connect(kernel, n, j, rip, rport, lport, lip)) <==>
      forall i :: 0 <= i < MAX_SOCKETS && Active(n.socks[i]) ==>
        !(n.socks[i].remote_ip == rip && n.socks[i].remote_port == rport && n.socks[i].local_port == lport)
  {
    var m := Connect(kernel, n, j, rip, rport, lport, lip);
    assert forall i :: 0 <= i < MAX_SOCKETS && i != j ==> m.socks[i] == n.socks[i];
    forall i | 0 <= i < MAX_SOCKETS && Active(n.socks[i]) && Distinct(m)
      ensures !(n.socks[i].remote_ip == rip && n.socks[i].remote_port == rport && n.socks[i].local_port == lport)
    {
      assert m.socks[i] == n.socks[i] && Active(m.socks[j]);
      assert i < j || j < i;
    }
  }

  /** New connections, by SYN or by connect, are for tuples no active connection has. */
  ghost predicate FreshTuples(n: Net, e: Event) {
    match e
    case PacketIn(p) => FreshSyn(n, p)
    case ConnectTo(rip, rport, lport, _) =>
      forall i :: 0 <= i < |n.socks| && Active(n.socks[i]) ==>
        !(n.socks[i].remote_ip == rip && n.socks[i].remote_port == rport && n.socks[i].local_port == lport)
    case _ => true
  }

  lemma StepDistinct(kernel: nat -> bool, n: Net, e: Event)
    requires n.Sized() && Enabled(n, e) && Distinct(n) && FreshTuples(n, e)
    ensures Distinct(Step(kernel, n, e))
  {
    hide OnPacket, Connect, Take;
    var m := Step(kernel, n, e);
    match e
    case PacketIn(p) => var j := AtMostOneSlot(kernel, n, p, 0);
    case ConnectTo(rip, rport, lport, lip) =>
      var j := FreeSlot(n.socks, 0);
      if j < MAX_SOCKETS {
        ConnectDistinct(kernel, n, j, rip, rport, lport, lip);
      }
    case _ =>
      forall i | 0 <= i < MAX_SOCKETS && Active(m.socks[i])
        ensures Active(n.socks[i]) && SameTuple(m.socks[i], n.socks[i])
      {
      }
  }

  /** FreshTuples of every event in the table it meets. */
  ghost predicate FreshRun(kernel: nat -> bool, n: Net, es: seq<Event>)
    requires n.Sized() && CanRun(kernel, n, es)
    decreases |es|
  {
    es == [] || (FreshTuples(n, es[0]) && (StepSized(kernel, n, es[0]); FreshRun(kernel, Step(kernel, n, es[0]), es[1..])))
  }

  lemma {:induction false} DistinctAlways(kernel: nat -> bool, n: Net, es: seq<Event>)
    requires n.Sized() && CanRun(kernel, n, es) && FreshRun(kernel, n, es) && Distinct(n)
    ensures Distinct(Run(kernel, n, es))
    decreases |es|
  {
    if es != [] {
      StepDistinct(kernel, n, es[0]);
      StepSized(kernel, n, es[0]);
      DistinctAlways(kernel, Step(kernel, n, es[0]), es[1..]);
    }
  }

  /** Demultiplexing over every run whose new connections use fresh tuples: tuples stay distinct, and the next packet
      changes at most one slot, which owns it, is opened by it or is reset by it, and no listener. */
  lemma Demultiplexing(kernel: nat -> bool, es: seq<Event>, p: Packet)
    requires CanRun(kernel, Init(), es) && FreshRun(kernel, Init(), es) && p.Valid()
    requires FreshSyn(Run(kernel, Init(), es), p)
    ensures var n := Run(kernel, Init(), es);
            && Distinct(n) && Distinct(OnPacket(kernel, n, p, 0))
            && (exists j: nat :: OnlySlot(n, OnPacket(kernel, n, p, 0), j))
            && (forall i :: 0 <= i < MAX_SOCKETS && OnPacket(kernel, n, p, 0).socks[i] != n.socks[i] ==>
                  Touches(n.socks, p, 0, i))
            && (forall l :: 0 <= l < MAX_SOCKETS && n.socks[l].used && n.socks[l].state == Listening ==>
                  OnPacket(kernel, n, p, 0).socks[l] == n.socks[l])
  {
    DistinctAlways(kernel, Init(), es);
    var n := Run(kernel, Init(), es);
    var j := AtMostOneSlot(kernel, n, p, 0);
    forall i | 0 <= i < MAX_SOCKETS && OnPacket(kernel, n, p, 0).socks[i] != n.socks[i]
      ensures Touches(n.socks, p, 0, i)
    {
      if !Owns(n.socks[i], p) {
        StrayChange(kernel, n, p, 0, i);
      }
    }
    forall l | 0 <= l < MAX_SOCKETS && n.socks[l].used && n.socks[l].state == Listening
      ensures OnPacket(kernel, n, p, 0).socks[l] == n.socks[l]
    {
      ListenerKept(kernel, n, p, 0, l);
    }
  }

  // ---- conservation of received data --------------------------------------

  /** Everything accepted has been read or is waiting in the buffer. */
  ghost predicate Conserved(n: Net, i: nat) {
    i < |n.socks| && n.socks[i].rx_len <= |n.socks[i].rx_buffer| &&
    Rcvd(n.trace, i) == Handed(n.trace, i) + n.socks[i].rx_buffer[..n.socks[i].rx_len]
  }

  /** Accepting a segment conserves data exactly when the buffer was empty and the segment fits it. */
  lemma ReceiveExact(kernel: nat -> bool, n: Net, i: nat, p: Packet)
    requires n.Sized() && i < MAX_SOCKETS && p.Valid() && Conserved(n, i)
    ensures Conserved(Receive(kernel, n, i, p), i) <==> n.socks[i].rx_len == 0 && |p.Data()| <= 1024
  {
    var d, m := p.Data(), Receive(kernel, n, i, p);
    var o := Received(i, p.seq_num, d);
    Extend(n.trace, o, i);
    SendTransparent(kernel, n, i, p, o);
    var waiting := n.socks[i].rx_buffer[..n.socks[i].rx_len];
    assert Rcvd(m.trace, i) == Handed(n.trace, i) + waiting + d;
    if |d| <= RX_BUFFER_SIZE {
      assert m.socks[i].rx_buffer[..|d|] == d;
      if n.socks[i].rx_len == 0 {
        assert Handed(n.trace, i) + waiting + d == Handed(n.trace, i) + d;
      } else {
        assert |Handed(n.trace, i) + waiting + d| > |Handed(n.trace, i) + d|;
      }
    }
  }

  lemma SendTransparent(kernel: nat -> bool, n: Net, i: nat, p: Packet, o: Obs)
    requires n.Sized() && i < MAX_SOCKETS && p.Valid() && o == Received(i, p.seq_num, p.Data())
    ensures var m := Receive(kernel, n, i, p);
            && Rcvd(m.trace, i) == Rcvd(n.trace + [o], i) && Handed(m.trace, i) == Handed(n.trace + [o], i)
            && m.socks[i].rx_buffer == Filled(n.socks[i].rx_buffer, p.Data()) && m.socks[i].rx_len == |p.Data()|
  {
    var m := Receive(kernel, n, i, p);
    assert m.trace == n.trace + [o] + [m.trace[|n.trace| + 1]];
    Extend(n.trace + [o], m.trace[|n.trace| + 1], i);
  }

  /** read conserves data exactly when the caller's buffer takes all that waits. */
  lemma ReadExact(n: Net, i: nat, maxlen: u32)
    requires n.Sized() && i < MAX_SOCKETS && Conserved(n, i)
    ensures Conserved(Read(n, i, maxlen), i) <==> n.socks[i].rx_len <= maxlen
  {
    var s := n.socks[i];
    var got := Take(s, maxlen);
    Extend(n.trace, Delivered(i, got), i);
    assert Read(n, i, maxlen).socks[i].rx_buffer[..0] == [];
    if s.rx_len > maxlen {
      assert |Handed(n.trace, i) + got| < |Handed(n.trace, i) + s.rx_buffer[..s.rx_len]|;
    }
  }

  /** A slot that starts a connection conserves data exactly when no stale bytes wait in it: rx_len survives
      free_socket, unclamped. */
  lemma StartExact(n: Net, j: nat, s: Socket, o: Obs, last: Obs, m: Net)
    requires n.Sized() && j < MAX_SOCKETS && |m.socks| == MAX_SOCKETS && o.slot == j && o.Opens()
    requires m.trace == n.trace + [o] + [last] && last.slot == j && (last.Emitted? || last.CraftFailed?)
    requires m.socks[j].rx_buffer == n.socks[j].rx_buffer && m.socks[j].rx_len == n.socks[j].rx_len
    ensures Conserved(m, j) <==> n.socks[j].rx_len == 0
  {
    Extend(n.trace, o, j);
    Extend(n.trace + [o], last, j);
    if n.socks[j].rx_len <= RX_BUFFER_SIZE {
      assert |m.socks[j].rx_buffer[..m.socks[j].rx_len]| == n.socks[j].rx_len;
    }
  }

  lemma OpenExact(kernel: nat -> bool, n: Net, p: Packet)
    requires n.Sized() && p.Valid() && FreeSlot(n.socks, 0) < MAX_SOCKETS
    ensures var j := FreeSlot(n.socks, 0);
            Conserved(PassiveOpen(kernel, n, p), j) <==> n.socks[j].rx_len == 0
  {
    var j, m := FreeSlot(n.socks, 0), PassiveOpen(kernel, n, p);
    StartExact(n, j, m.socks[j], m.trace[|n.trace|], m.trace[|n.trace| + 1], m);
  }

  lemma ConnectExact(kernel: nat -> bool, n: Net, j: nat, rip: Ip4, rport: u16, lport: u16, lip: Ip4)
    requires n.Sized() && j < MAX_SOCKETS
    ensures Conserved(Connect(kernel, n, j, rip, rport, lport, lip), j) <==> n.socks[j].rx_len == 0
  {
    var m := Connect(kernel, n, j, rip, rport, lport, lip);
    StartExact(n, j, m.socks[j], m.trace[|n.trace|], m.trace[|n.trace| + 1], m);
  }

  // ---- one step, exactly ----------------------------------------------------

  /** The packet brings data to slot i. */
  predicate Gives(socks: seq<Socket>, p: Packet, k: nat, i: nat)
    requires p.Valid()
  {
    Reached(socks, p, k, i) && OfConnection(socks[i], p) && !p.Has(RST) && p.Data() != []
  }

  /** The data fits an empty buffer, and the packet opens no slot where bytes wait. */
  predicate ExactPacket(socks: seq<Socket>, p: Packet, k: nat, i: nat)
    requires k <= |socks| && i < |socks| && p.Valid()
  {
    && (Gives(socks, p, k, i) ==> socks[i].rx_len == 0 && |p.Data()| <= RX_BUFFER_SIZE)
    && (Opened(socks, p, k) == Some(i) ==> socks[i].rx_len == 0 && !Gives(socks, p, k, i))
  }

  /** Whether an event conserves the data of slot i; no other slot has a say. */
  predicate ExactAt(n: Net, e: Event, i: nat)
    requires n.Sized() && Enabled(n, e) && i < MAX_SOCKETS
  {
    match e
    case PacketIn(p) => ExactPacket(n.socks, p, 0, i)
    case ConnectTo(_, _, _, _) => FreeSlot(n.socks, 0) == i ==> n.socks[i].rx_len == 0
    case ReadFrom(j, maxlen) => j == i ==> n.socks[i].rx_len <= maxlen
    case _ => true
  }

  /** Same bytes received, handed over and waiting at slot i. */
  ghost predicate SameData(n: Net, m: Net, i: nat) {
    && i < |n.socks| == |m.socks|
    && m.socks[i].rx_buffer == n.socks[i].rx_buffer && m.socks[i].rx_len == n.socks[i].rx_len
    && Rcvd(m.trace, i) == Rcvd(n.trace, i) && Handed(m.trace, i) == Handed(n.trace, i)
  }

  /** An observation at another slot, or one that moves no data. */
  lemma Indifferent(n: Net, j: nat, s: Socket, o: Obs, i: nat)
    requires i < |n.socks| && j < |n.socks| && o.slot == j
    requires i == j ==> !o.Received? && !o.Delivered? && !o.Opens() && s.rx_buffer == n.socks[j].rx_buffer && s.rx_len == n.socks[j].rx_len
    ensures SameData(n, n.With(j, s).Note(o), i)
  {
    Extend(n.trace, o, i);
  }

  lemma SendSame(kernel: nat -> bool, n: Net, j: nat, data: seq<u8>, flags: u8, i: nat)
    requires i < |n.socks| && j < |n.socks| && |data| < M32
    ensures SameData(n, Send(kernel, n, j, data, flags), i)
  {
    var m := Send(kernel, n, j, data, flags);
    assert n.socks[j := n.socks[j]] == n.socks;
    Indifferent(n, j, m.socks[j], m.trace[|n.trace|], i);
  }

  /** Everything an operation on slot j appends leaves the data of another slot alone. */
  lemma {:induction false} OtherSlot(t: seq<Obs>, u: seq<Obs>, j: nat, i: nat)
    requires Adds(t, u, j) && i != j
    ensures Rcvd(u, i) == Rcvd(t, i) && Handed(u, i) == Handed(t, i)
    decreases |u|
  {
    if |u| > |t| {
      var v := u[..|u| - 1];
      OtherSlot(t, v, j, i);
      assert u == v + [u[|u| - 1]];
      Extend(v, u[|u| - 1], i);
    } else {
      assert u == t;
    }
  }

  /** The history grew, and only at slot j. */
  ghost predicate Adds(t: seq<Obs>, u: seq<Obs>, j: nat) {
    t <= u && forall q :: |t| <= q < |u| ==> u[q].slot == j
  }

  lemma HandleTrace(kernel: nat -> bool, n: Net, p: Packet, k: nat)
    requires |n.socks| == MAX_SOCKETS && k < MAX_SOCKETS && p.Valid()
    ensures Adds(n.trace, Handle(kernel, n, p, k).0.trace, Target(n, p, k))
  {
    hide InConnection, PassiveOpen;
    if Stops(n.socks[k], p) {
      OpenAdds(kernel, n, p);
    } else if OfConnection(n.socks[k], p) {
      InConnectionAdds(kernel, n, k, p);
    }
  }

  lemma OpenAdds(kernel: nat -> bool, n: Net, p: Packet)
    requires |n.socks| == MAX_SOCKETS
    ensures Adds(n.trace, PassiveOpen(kernel, n, p).trace, FreeSlot(n.socks, 0))
  {
  }

  lemma InConnectionAdds(kernel: nat -> bool, n: Net, k: nat, p: Packet)
    requires k < |n.socks| && p.Valid()
    ensures Adds(n.trace, InConnection(kernel, n, k, p).trace, k)
  {
    if p.Data() != [] {
      ReceiveAdds(kernel, n, k, p);
    }
  }

  lemma ReceiveAdds(kernel: nat -> bool, n: Net, k: nat, p: Packet)
    requires k < |n.socks| && p.Valid()
    ensures Adds(n.trace, Receive(kernel, n, k, p).trace, k)
  {
  }

  lemma HandleOther(kernel: nat -> bool, n: Net, p: Packet, k: nat, i: nat)
    requires n.Sized() && k < MAX_SOCKETS && i < MAX_SOCKETS && p.Valid() && i != Target(n, p, k)
    ensures SameData(n, Handle(kernel, n, p, k).0, i)
  {
    hide Handle, Rcvd, Handed;
    HandleTrace(kernel, n, p, k);
    HandleSized(kernel, n, p, k);
    HandleOnlyTarget(kernel, n, p, k);
    OtherSlot(n.trace, Handle(kernel, n, p, k).0.trace, Target(n, p, k), i);
  }

  /** The iteration at slot i itself, when it opens nothing. */
  lemma HandleOwn(kernel: nat -> bool, n: Net, p: Packet, i: nat)
    requires n.Sized() && i < MAX_SOCKETS && p.Valid() && Conserved(n, i) && Target(n, p, i) == i
    requires !(Listens(n.socks[i], p.dest_port) && p.Has(SYN))
    ensures var m := Handle(kernel, n, p, i).0;
            && (Gives(n.socks, p, i, i) ==>
                  && m.socks[i].rx_len == |p.Data()|
                  && (Conserved(m, i) <==> n.socks[i].rx_len == 0 && |p.Data()| <= RX_BUFFER_SIZE))
            && (!Gives(n.socks, p, i, i) ==> SameData(n, m, i))
  {
    var s := n.socks[i];
    if !s.used || s.local_port != p.dest_port {
    } else if s.state == SynSent && p.Has(RST) {
      Indifferent(n, i, s.(used := false, state := Closed), Freed(i), i);
    } else if s.state == SynSent && p.Has(SYN) && p.Has(ACK) && p.From(s) {
      var a := s.(local_ip := p.dst_ip, ack_num := Add32(p.seq_num, 1), state := Established);
      Indifferent(n, i, a, Answered(i, p.seq_num, p.dst_ip), i);
      SendSame(kernel, n.With(i, a).Note(Answered(i, p.seq_num, p.dst_ip)), i, [], ACK, i);
    } else if s.state == Established && p.From(s) {
      if p.Has(RST) {
        Indifferent(n, i, s.(used := false, state := Closed), Freed(i), i);
      } else {
        var m := n;
        if p.Data() != [] {
          ReceiveExact(kernel, n, i, p);
          m := Receive(kernel, n, i, p);
        }
        if p.Has(FIN) {
          var r := Send(kernel, m, i, [], ACK);
          SendSame(kernel, m, i, [], ACK, i);
          Indifferent(r, i, r.socks[i].(used := false, state := Closed), Freed(i), i);
        }
      }
    }
  }

  /** Data lost at slot i with bytes waiting stays lost for the rest of the loop. */
  lemma {:induction false} LostStays(kernel: nat -> bool, n: Net, p: Packet, k: nat, i: nat)
    requires n.Sized() && i < k <= MAX_SOCKETS && p.Valid() && n.socks[i].rx_len > 0 && !Conserved(n, i)
    ensures !Conserved(OnPacket(kernel, n, p, k), i)
    decreases MAX_SOCKETS - k
  {
    if k < MAX_SOCKETS {
      hide Handle, PassiveOpen, Rcvd, Handed, OnlySlot;
      var m := Handle(kernel, n, p, k).0;
      HandleSized(kernel, n, p, k);
      HandleShape(kernel, n, p, k);
      if Listens(n.socks[k], p.dest_port) && p.Has(SYN) && FreeSlot(n.socks, 0) == i {
        OpenExact(kernel, n, p);
        ListenerOpens(kernel, n, p, k);
      } else {
        HandleOther(kernel, n, p, k, i);
        if !Stops(n.socks[k], p) {
          LostStays(kernel, m, p, k + 1, i);
        }
      }
    }
  }

  lemma HandleSized(kernel: nat -> bool, n: Net, p: Packet, k: nat)
    requires n.Sized() && k < MAX_SOCKETS && p.Valid()
    ensures Handle(kernel, n, p, k).0.Sized()
  {
  }

  lemma ListenerOpens(kernel: nat -> bool, n: Net, p: Packet, k: nat)
    requires |n.socks| == MAX_SOCKETS && k < MAX_SOCKETS && p.Valid() && Listens(n.socks[k], p.dest_port) && p.Has(SYN)
    ensures Handle(kernel, n, p, k) == (PassiveOpen(kernel, n, p), true)
  {
  }

  lemma {:induction false} PacketExact(kernel: nat -> bool, n: Net, p: Packet, k: nat, i: nat)
    requires n.Sized() && k <= MAX_SOCKETS && i < MAX_SOCKETS && p.Valid() && Conserved(n, i)
    ensures Conserved(OnPacket(kernel, n, p, k), i) <==> ExactPacket(n.socks, p, k, i)
    decreases MAX_SOCKETS - k
  {
    if k < MAX_SOCKETS {
      hide Handle, OnPacket, Opened, Stops, Gives, Conserved, Packet.Data;
      var m := Handle(kernel, n, p, k).0;
      OnPacketNext(kernel, n, p, k);
      HandleSized(kernel, n, p, k);
      HandleShape(kernel, n, p, k);
      if Stops(n.socks[k], p) {
        StopExact(kernel, n, p, k, i);
      } else {
        OpenedNext(kernel, n, p, k);
        GivesNext(n, m, p, k, i);
        if i != k {
          HandleOther(kernel, n, p, k, i);
          SameConserved(n, m, i);
          PacketExact(kernel, m, p, k + 1, i);
        } else {
          HandleOwn(kernel, n, p, i);
          if !Gives(n.socks, p, i, i) {
            SameConserved(n, m, i);
          }
          if Conserved(m, i) {
            PacketExact(kernel, m, p, k + 1, i);
          } else {
            LostStays(kernel, m, p, k + 1, i);
          }
        }
      }
    }
  }

  lemma OnPacketNext(kernel: nat -> bool, n: Net, p: Packet, k: nat)
    requires |n.socks| == MAX_SOCKETS && k < MAX_SOCKETS && p.Valid()
    ensures var (m, stop) := Handle(kernel, n, p, k);
            OnPacket(kernel, n, p, k) == if stop then m else OnPacket(kernel, m, p, k + 1)
  {
  }

  lemma SameConserved(n: Net, m: Net, i: nat)
    requires SameData(n, m, i)
    ensures Conserved(m, i) <==> Conserved(n, i)
  {
  }

  lemma GivesNext(n: Net, m: Net, p: Packet, k: nat, i: nat)
    requires |n.socks| == MAX_SOCKETS && k < MAX_SOCKETS && i < MAX_SOCKETS && p.Valid()
    requires OnlySlot(n, m, k) && !Stops(n.socks[k], p)
    ensures Gives(m.socks, p, k + 1, i) <==> i != k && Gives(n.socks, p, k, i)
  {
  }

  lemma StopExact(kernel: nat -> bool, n: Net, p: Packet, k: nat, i: nat)
    requires n.Sized() && k < MAX_SOCKETS && i < MAX_SOCKETS && p.Valid() && Conserved(n, i) && Stops(n.socks[k], p)
    ensures Conserved(OnPacket(kernel, n, p, k), i) <==> ExactPacket(n.socks, p, k, i)
  {
    if n.socks[k].state == Listening {
      if i == FreeSlot(n.socks, 0) {
        OpenExact(kernel, n, p);
      } else {
        HandleOther(kernel, n, p, k, i);
      }
    } else if i == k {
      HandleOwn(kernel, n, p, i);
    } else {
      HandleOther(kernel, n, p, k, i);
    }
  }

  /** What a packet that brings data to slot i leaves there, when it opens no slot. */
  lemma {:induction false} PacketGives(kernel: nat -> bool, n: Net, p: Packet, k: nat, i: nat)
    requires n.Sized() && k <= MAX_SOCKETS && i < MAX_SOCKETS && p.Valid()
    requires Gives(n.socks, p, k, i) && Opened(n.socks, p, k).None?
    ensures var m := OnPacket(kernel, n, p, k);
            && m.Sized() && m.socks[i].rx_len == |p.Data()| && m.socks[i].used == !p.Has(FIN)
            && Rcvd(m.trace, i) == Rcvd(n.trace, i) + p.Data() && Handed(m.trace, i) == Handed(n.trace, i)
    decreases MAX_SOCKETS - k
  {
    hide Handle, OnPacket, Opened, Gives, Rcvd, Handed, InConnection, Packet.Data;
    assert k <= i && !Stops(n.socks[k], p) by { GivesRuns(n.socks, p, k, i); }
    var m := Handle(kernel, n, p, k).0;
    OnPacketNext(kernel, n, p, k);
    HandleShape(kernel, n, p, k);
    HandleSized(kernel, n, p, k);
    OpenedNext(kernel, n, p, k);
    OnPacketSized(kernel, m, p, k + 1);
    if k < i {
      HandleOther(kernel, n, p, k, i);
      GivesNext(n, m, p, k, i);
      PacketGives(kernel, m, p, k + 1, i);
    } else {
      OwnGives(kernel, n, p, i);
      RestQuiet(kernel, m, p, i + 1, i);
    }
  }

  lemma GivesRuns(socks: seq<Socket>, p: Packet, k: nat, i: nat)
    requires p.Valid() && Gives(socks, p, k, i)
    ensures k <= i < |socks| && !Stops(socks[k], p)
  {
  }

  lemma OwnGives(kernel: nat -> bool, n: Net, p: Packet, i: nat)
    requires n.Sized() && i < MAX_SOCKETS && p.Valid() && Gives(n.socks, p, i, i)
    ensures var m := Handle(kernel, n, p, i).0;
            && m.socks[i].rx_len == |p.Data()| && m.socks[i].used == !p.Has(FIN)
            && Rcvd(m.trace, i) == Rcvd(n.trace, i) + p.Data() && Handed(m.trace, i) == Handed(n.trace, i)
  {
    hide Rcvd, Handed;
    var o := Received(i, p.seq_num, p.Data());
    SendTransparent(kernel, n, i, p, o);
    Extend(n.trace, o, i);
    var m := Receive(kernel, n, i, p);
    if p.Has(FIN) {
      var r := Send(kernel, m, i, [], ACK);
      SendSame(kernel, m, i, [], ACK, i);
      Indifferent(r, i, r.socks[i].(used := false, state := Closed), Freed(i), i);
    }
  }

  /** The rest of the loop leaves an earlier slot alone, but for opening it. */
  lemma {:induction false} RestQuiet(kernel: nat -> bool, n: Net, p: Packet, k: nat, i: nat)
    requires n.Sized() && i < k <= MAX_SOCKETS && p.Valid() && Opened(n.socks, p, k) != Some(i)
    ensures SameData(n, OnPacket(kernel, n, p, k), i) && OnPacket(kernel, n, p, k).socks[i] == n.socks[i]
    decreases MAX_SOCKETS - k
  {
    hide Handle, OnPacket, Rcvd, Handed;
    if k == MAX_SOCKETS {
      OnPacketDone(kernel, n, p);
    } else {
      OnPacketNext(kernel, n, p, k);
      HandleShape(kernel, n, p, k);
      HandleSized(kernel, n, p, k);
      HandleOnlyTarget(kernel, n, p, k);
      HandleOther(kernel, n, p, k, i);
      if !Stops(n.socks[k], p) {
        OpenedNext(kernel, n, p, k);
        RestQuiet(kernel, Handle(kernel, n, p, k).0, p, k + 1, i);
      }
    }
  }

  lemma OnPacketDone(kernel: nat -> bool, n: Net, p: Packet)
    requires |n.socks| == MAX_SOCKETS && p.Valid()
    ensures OnPacket(kernel, n, p, MAX_SOCKETS) == n
  {
  }

  /** No other packet changes how much waits. */
  lemma {:induction false} PacketRx(kernel: nat -> bool, n: Net, p: Packet, k: nat, i: nat)
    requires n.Sized() && k <= MAX_SOCKETS && i < MAX_SOCKETS && p.Valid() && !Gives(n.socks, p, k, i)
    ensures OnPacket(kernel, n, p, k).socks[i].rx_len == n.socks[i].rx_len
    decreases MAX_SOCKETS - k
  {
    hide OnPacket, Handle, Rcvd, Handed, Gives;
    if k == MAX_SOCKETS {
      OnPacketDone(kernel, n, p);
    } else {
      OnPacketNext(kernel, n, p, k);
      HandleShape(kernel, n, p, k);
      HandleSized(kernel, n, p, k);
      HandleRx(kernel, n, p, k, i);
      if !Stops(n.socks[k], p) {
        var m := Handle(kernel, n, p, k).0;
        GivesNext(n, m, p, k, i);
        PacketRx(kernel, m, p, k + 1, i);
      }
    }
  }

  lemma HandleRx(kernel: nat -> bool, n: Net, p: Packet, k: nat, i: nat)
    requires n.Sized() && k < MAX_SOCKETS && i < MAX_SOCKETS && p.Valid() && !Gives(n.socks, p, k, i)
    ensures Handle(kernel, n, p, k).0.socks[i].rx_len == n.socks[i].rx_len
  {
  }

  lemma {:induction false} OpenedNeedsSyn(socks: seq<Socket>, p: Packet, k: nat)
    requires k <= |socks|
    ensures Opened(socks, p, k).Some? ==> p.Has(SYN)
    decreases |socks| - k
  {
    if k < |socks| && !Stops(socks[k], p) {
      OpenedNeedsSyn(if Ends(socks[k], p) then socks[k := socks[k].(used := false)] else socks, p, k + 1);
    }
  }

  /** Every event, exactly: slot i's data is conserved if and only if the event is exact at i. */
  lemma StepExact(kernel: nat -> bool, n: Net, e: Event, i: nat)
    requires n.Sized() && Enabled(n, e) && i < MAX_SOCKETS && Conserved(n, i)
    ensures Conserved(Step(kernel, n, e), i) <==> ExactAt(n, e, i)
  {
    hide Connect, Close, Send, OnPacket, Rcvd, Handed, Opened, Read, ExactPacket;
    match e
    case PacketIn(p) => PacketExact(kernel, n, p, 0, i);
    case ConnectTo(rip, rport, lport, lip) =>
      var j := FreeSlot(n.socks, 0);
      if j < MAX_SOCKETS {
        ConnectExact(kernel, n, j, rip, rport, lport, lip);
        ConnectOther(kernel, n, j, rip, rport, lport, lip, i);
      }
    case ReadFrom(j, maxlen) =>
      if j == i {
        ReadExact(n, i, maxlen);
      } else {
        ReadOther(n, j, maxlen, i);
      }
    case WriteTo(j, data) => SendSame(kernel, n, j, data, ACK, i);
    case CloseSlot(j) => CloseSame(kernel, n, j, i);
    case ResendSynOn(j) =>
      ResendSame(kernel, n, j, i);
    case _ =>
  }

  lemma ResendSame(kernel: nat -> bool, n: Net, j: nat, i: nat)
    requires n.Sized() && i < MAX_SOCKETS && j < MAX_SOCKETS
    ensures SameData(n, ResendSyn(kernel, n, j), i)
  {
    SendSame(kernel, n.With(j, n.socks[j].(seq_num := 0)), j, [], SYN, i);
  }

  lemma ReadOther(n: Net, j: nat, maxlen: u32, i: nat)
    requires n.Sized() && Enabled(n, ReadFrom(j, maxlen)) && i < MAX_SOCKETS && i != j
    ensures SameData(n, Read(n, j, maxlen), i)
  {
    Extend(n.trace, Delivered(j, Take(n.socks[j], maxlen)), i);
  }

  lemma ConnectOther(kernel: nat -> bool, n: Net, j: nat, rip: Ip4, rport: u16, lport: u16, lip: Ip4, i: nat)
    requires n.Sized() && i < MAX_SOCKETS && j < MAX_SOCKETS
    ensures i != j ==> SameData(n, Connect(kernel, n, j, rip, rport, lport, lip), i)
  {
    if i != j {
      OtherSlot(n.trace, Connect(kernel, n, j, rip, rport, lport, lip).trace, j, i);
    }
  }

  lemma CloseSame(kernel: nat -> bool, n: Net, j: nat, i: nat)
    requires n.Sized() && i < MAX_SOCKETS && j < MAX_SOCKETS
    ensures SameData(n, Close(kernel, n, j), i)
  {
    var s := n.socks[j];
    var flags := if s.state == SynSent then RST else FIN + ACK;
    SendSame(kernel, n, j, [], flags, i);
    var r := if s.state == Established || s.state == FinWait || s.state == SynSent then Send(kernel, n, j, [], flags) else n;
    Indifferent(r, j, r.socks[j].(used := false, state := Closed), Freed(j), i);
  }

  // ---- whole runs -------------------------------------------------------------

  ghost predicate ExactRun(kernel: nat -> bool, n: Net, es: seq<Event>, i: nat)
    requires n.Sized() && CanRun(kernel, n, es) && i < MAX_SOCKETS
    decreases |es|
  {
    es == [] || (ExactAt(n, es[0], i) && (StepSized(kernel, n, es[0]); ExactRun(kernel, Step(kernel, n, es[0]), es[1..], i)))
  }

  /** Slot i conserves its data before, between and after the events. */
  ghost predicate ConservedThroughout(kernel: nat -> bool, n: Net, es: seq<Event>, i: nat)
    requires n.Sized() && CanRun(kernel, n, es) && i < MAX_SOCKETS
    decreases |es|
  {
    Conserved(n, i) &&
    (es == [] || (StepSized(kernel, n, es[0]); ConservedThroughout(kernel, Step(kernel, n, es[0]), es[1..], i)))
  }

  lemma {:induction false} RunExact(kernel: nat -> bool, n: Net, es: seq<Event>, i: nat)
    requires n.Sized() && CanRun(kernel, n, es) && i < MAX_SOCKETS && Conserved(n, i)
    ensures ConservedThroughout(kernel, n, es, i) <==> ExactRun(kernel, n, es, i)
    ensures ExactRun(kernel, n, es, i) ==> Conserved(Run(kernel, n, es), i)
    decreases |es|
  {
    hide Step, ExactAt, Conserved, Enabled;
    if es != [] {
      StepExact(kernel, n, es[0], i);
      StepSized(kernel, n, es[0]);
      if ExactAt(n, es[0], i) {
        RunExact(kernel, Step(kernel, n, es[0]), es[1..], i);
      }
    }
  }

  /** Receive conservation, slot by slot and over every run: what was read on a connection, followed by what waits in
      its buffer, is what was accepted on it, at every moment if and only if every event is exact at that slot. */
  lemma ReceiveConservation(kernel: nat -> bool, es: seq<Event>, i: nat)
    requires CanRun(kernel, Init(), es) && i < MAX_SOCKETS
    ensures ConservedThroughout(kernel, Init(), es, i) <==> ExactRun(kernel, Init(), es, i)
    ensures ExactRun(kernel, Init(), es, i) ==>
      var n := Run(kernel, Init(), es);
      && n.socks[i].rx_len <= RX_BUFFER_SIZE
      && Rcvd(n.trace, i) == Handed(n.trace, i) + n.socks[i].rx_buffer[..n.socks[i].rx_len]
      && (n.socks[i].rx_len == 0 ==> Rcvd(n.trace, i) == Handed(n.trace, i))
  {
    RunExact(kernel, Init(), es, i);
  }

  // ---- a discipline for one connection ----------------------------------------

  /** Data for slot i arrives in an empty buffer that it fits, a FIN brings none and finds none waiting, reads take
      everything, and no bytes wait in the slot while it is free. */
  predicate CarefulAt(n: Net, e: Event, i: nat)
    requires n.Sized() && Enabled(n, e) && i < MAX_SOCKETS
  {
    match e
    case PacketIn(p) =>
      && (Owns(n.socks[i], p) && p.Data() != [] ==> n.socks[i].rx_len == 0 && |p.Data()| <= RX_BUFFER_SIZE)
      && (Owns(n.socks[i], p) && p.Has(FIN) ==> n.socks[i].rx_len == 0 && p.Data() == [])
      && (!n.socks[i].used ==> n.socks[i].rx_len == 0)
    case ConnectTo(_, _, _, _) => !n.socks[i].used ==> n.socks[i].rx_len == 0
    case ReadFrom(j, maxlen) => j == i ==> n.socks[i].rx_len <= maxlen
    case _ => true
  }

  lemma {:induction false} OpenedIsFree(socks: seq<Socket>, p: Packet, k: nat)
    requires k <= |socks|
    ensures var o := Opened(socks, p, k);
            o.Some? ==> o.value < |socks| && (!socks[o.value].used || (k <= o.value && Ends(socks[o.value], p)))
    decreases |socks| - k
  {
    if k < |socks| && !Stops(socks[k], p) {
      OpenedIsFree(if Ends(socks[k], p) then socks[k := socks[k].(used := false)] else socks, p, k + 1);
    }
  }

  /** The discipline is enough, whatever the other slots do. */
  lemma CarefulIsExact(n: Net, e: Event, i: nat)
    requires n.Sized() && Enabled(n, e) && i < MAX_SOCKETS && CarefulAt(n, e, i)
    ensures ExactAt(n, e, i)
  {
    if e.PacketIn? {
      OpenedIsFree(n.socks, e.p, 0);
    }
  }

  ghost predicate CarefulRun(kernel: nat -> bool, n: Net, es: seq<Event>, i: nat)
    requires n.Sized() && CanRun(kernel, n, es) && i < MAX_SOCKETS
    decreases |es|
  {
    es == [] || (CarefulAt(n, es[0], i) && (StepSized(kernel, n, es[0]); CarefulRun(kernel, Step(kernel, n, es[0]), es[1..], i)))
  }

  lemma {:induction false} CarefulRunIsExact(kernel: nat -> bool, n: Net, es: seq<Event>, i: nat)
    requires n.Sized() && CanRun(kernel, n, es) && i < MAX_SOCKETS && CarefulRun(kernel, n, es, i)
    ensures ExactRun(kernel, n, es, i)
    decreases |es|
  {
    hide Step, ExactAt, CarefulAt, Enabled;
    if es != [] {
      CarefulIsExact(n, es[0], i);
      StepSized(kernel, n, es[0]);
      CarefulRunIsExact(kernel, Step(kernel, n, es[0]), es[1..], i);
    }
  }
}
