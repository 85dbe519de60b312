/** The server half of chat/main.c: the client table and the socket table stay in step after every packet. */
module Chat {
  import opened Bytes
  import Tcp
  import opened TcpStack
  import TcpDemux
  import opened RoomData

  const CHAT_PORT: u16 := 9000
  const NICK_CAP: nat := 16
  const MAX_CLIENTS: nat := Tcp.MAX_SOCKETS - 1
  /** socket_tcp4 on the empty table gives the listener slot 0. */
  const SERVER: nat := 0

  type Socks = seq<Tcp.Socket>

  // ---- the socket table of a chat server ------------------------------------

  /** The listener is in place and every other used slot is a connection to the chat port. */
  ghost predicate Serving(socks: Socks) {
    && |socks| == Tcp.MAX_SOCKETS
    && TcpDemux.Listens(socks[SERVER], CHAT_PORT)
    && forall s :: 1 <= s < Tcp.MAX_SOCKETS ==> if socks[s].used then Member(socks[s]) else socks[s].state == Tcp.Closed
  }

  /** A used, established socket on the chat port: what discovery looks for. */
  predicate Member(s: Tcp.Socket) {
    s.used && s.state == Tcp.Established && s.local_port == CHAT_PORT
  }

  lemma {:induction false} PacketKeepsServing(kernel: nat -> bool, n: Tcp.Net, p: Tcp.Packet, i: nat)
    requires Serving(n.socks) && i <= Tcp.MAX_SOCKETS && p.Valid()
    ensures Serving(Tcp.OnPacket(kernel, n, p, i).socks)
    decreases Tcp.MAX_SOCKETS - i
  {
    if i < Tcp.MAX_SOCKETS {
      TcpDemux.HandleOnlyTarget(kernel, n, p, i);
      PacketKeepsServing(kernel, Tcp.Handle(kernel, n, p, i).0, p, i + 1);
    }
  }

  /** Same connections; only sequence numbers and receive buffers may differ. */
  ghost predicate SameConnections(a: Socks, b: Socks) {
    |a| == |b| && forall s :: 0 <= s < |a| ==>
      a[s].used == b[s].used && a[s].state == b[s].state && a[s].local_port == b[s].local_port
  }

  // ---- the client table -----------------------------------------------------

  type Clients = seq<Option<nat>>

  /** Entries name connection slots, no slot twice. */
  ghost predicate WellFormed(c: Clients) {
    && |c| == MAX_CLIENTS
    && (forall j :: 0 <= j < |c| && c[j].Some? ==> 1 <= c[j].value < Tcp.MAX_SOCKETS)
    && (forall i, j :: 0 <= i < j < |c| && c[i].Some? ==> c[i] != c[j])
  }

  function Count(c: Clients): nat {
    if c == [] then 0 else Count(c[..|c| - 1]) + if c[|c| - 1].Some? then 1 else 0
  }

  lemma {:induction false} CountUpdate(c: Clients, j: nat, v: Option<nat>)
    requires j < |c|
    ensures Count(c[j := v]) + (if c[j].Some? then 1 else 0) == Count(c) + if v.Some? then 1 else 0
  {
    var n := |c| - 1;
    if j < n {
      CountUpdate(c[..n], j, v);
      assert c[j := v][..n] == c[..n][j := v];
    } else {
      assert c[j := v][..n] == c[..n];
    }
  }

  function Slots(c: Clients): set<nat> {
    set j | 0 <= j < |c| && c[j].Some? :: c[j].value
  }

  lemma SlotsLast(c: Clients)
    requires c != []
    ensures Slots(c) == Slots(c[..|c| - 1]) + if c[|c| - 1].Some? then {c[|c| - 1].value} else {}
  {
    var p := c[..|c| - 1];
    forall x | x in Slots(c) ensures x in Slots(p) || c[|c| - 1] == Some(x) {
      var j :| 0 <= j < |c| && c[j].Some? && c[j].value == x;
      assert j < |p| ==> p[j] == c[j];
    }
    forall x | x in Slots(p) ensures x in Slots(c) {
      var j :| 0 <= j < |p| && p[j].Some? && p[j].value == x;
      assert c[j] == p[j];
    }
  }

  lemma {:induction false} SlotsCount(c: Clients)
    requires forall i, j :: 0 <= i < j < |c| && c[i].Some? ==> c[i] != c[j]
    ensures |Slots(c)| == Count(c)
  {
    if c != [] {
      var n := |c| - 1;
      SlotsCount(c[..n]);
      if c[n].Some? {
        assert c[n].value !in Slots(c[..n]);
      }
      SlotsLast(c);
    }
  }

  lemma {:induction false} Bounded(a: set<nat>, lo: nat, hi: nat)
    requires lo <= hi && forall x :: x in a ==> lo <= x < hi
    ensures |a| <= hi - lo
    decreases hi
  {
    if a != {} {
      var x :| x in a;
      if lo == hi - 1 {
        assert a == {lo};
      } else {
        Bounded(a - {hi - 1}, lo, hi - 1);
        assert |a| <= |a - {hi - 1}| + 1;
      }
    }
  }

  /** Pigeonhole: there are as many entries as connection slots, so a slot that has no entry finds a free one. */
  lemma RoomForEverySlot(c: Clients, s: nat)
    requires WellFormed(c) && 1 <= s < Tcp.MAX_SOCKETS && Some(s) !in c
    ensures exists j :: 0 <= j < MAX_CLIENTS && c[j] == None
  {
    if forall j :: 0 <= j < MAX_CLIENTS ==> c[j].Some? {
      SlotsCount(c);
      AllSome(c);
      assert s !in Slots(c);
      Bounded(Slots(c) + {s}, 1, Tcp.MAX_SOCKETS);
      assert false;
    }
  }

  lemma {:induction false} AllSome(c: Clients)
    requires forall j :: 0 <= j < |c| ==> c[j].Some?
    ensures Count(c) == |c|
  {
    if c != [] {
      AllSome(c[..|c| - 1]);
    }
  }

  /** The entries are exactly the connections. */
  ghost predicate InStep(c: Clients, socks: Socks) {
    && WellFormed(c) && Serving(socks)
    && forall s :: 1 <= s < Tcp.MAX_SOCKETS ==> (socks[s].used <==> Some(s) in c)
  }

  /** The client table with the nickname and readiness of each entry. */
  datatype Desk = Desk(c: Clients, ready: seq<bool>, nicks: seq<seq<u8>>)
  {
    predicate Sized() { |c| == MAX_CLIENTS && |ready| == MAX_CLIENTS && |nicks| == MAX_CLIENTS }

    predicate SameAt(d: Desk, j: nat)
      requires Sized() && d.Sized() && j < MAX_CLIENTS
    {
      c[j] == d.c[j] && ready[j] == d.ready[j] && nicks[j] == d.nicks[j]
    }
  }

  /** Every entry of a is still there in b, with its nickname. */
  ghost predicate KeepsEntries(a: Desk, b: Desk) {
    a.Sized() && b.Sized() && forall j :: 0 <= j < MAX_CLIENTS && a.c[j].Some? ==> b.SameAt(a, j)
  }

  /** The connections among the first n slots have entries. */
  ghost predicate Entered(socks: Socks, c: Clients, n: nat) {
    forall s :: 1 <= s < n && s < |socks| && socks[s].used ==> Some(s) in c
  }

  /** The first n entries are connections. */
  ghost predicate Live(socks: Socks, c: Clients, n: nat) {
    forall j :: 0 <= j < n && j < |c| && c[j].Some? ==> c[j].value < |socks| && socks[c[j].value].used
  }

  /** Entries of a whose connection is alive are still there in b. */
  ghost predicate KeepsLive(a: Desk, b: Desk, socks: Socks) {
    a.Sized() && b.Sized() && forall j :: 0 <= j < MAX_CLIENTS && a.c[j].Some? && a.c[j].value < |socks| && socks[a.c[j].value].used ==>
      b.SameAt(a, j)
  }

  /** The same entries; a confirmed nickname stays confirmed and unchanged. */
  ghost predicate KeepsReady(a: Desk, b: Desk) {
    && a.Sized() && b.Sized() && a.c == b.c
    && forall j :: 0 <= j < MAX_CLIENTS && a.ready[j] ==> b.SameAt(a, j)
  }

  /** Across an iteration: a member whose connection is alive keeps the entry, and with it a confirmed nickname. */
  ghost predicate Stable(a: Desk, b: Desk, socks: Socks) {
    a.Sized() && b.Sized() && forall j :: 0 <= j < MAX_CLIENTS && a.c[j].Some? && a.c[j].value < |socks| && socks[a.c[j].value].used ==>
      b.c[j] == a.c[j] && (a.ready[j] ==> b.SameAt(a, j))
  }

  lemma StableThrough(a: Desk, b: Desk, c: Desk, d: Desk, socks: Socks)
    requires KeepsEntries(a, b) && KeepsReady(b, c) && KeepsLive(c, d, socks)
    ensures Stable(a, d, socks)
  {
    forall j | 0 <= j < MAX_CLIENTS && a.c[j].Some? && a.c[j].value < |socks| && socks[a.c[j].value].used
      ensures d.c[j] == a.c[j] && (a.ready[j] ==> d.SameAt(a, j))
    {
      assert b.SameAt(a, j) && d.SameAt(c, j);
      assert a.ready[j] ==> c.SameAt(b, j);
    }
  }

  // ---- nicknames -------------------------------------------------------------

  /** A C string within its sixteen bytes. */
  ghost predicate NickOk(nick: seq<u8>) {
    |nick| == NICK_CAP && exists k :: 0 <= k < NICK_CAP && nick[k] == 0
  }

  /** Bytes of a segment up to the first LF, without CR. */
  function Typed(rx: seq<u8>): seq<u8> {
    if rx == [] || rx[0] == 0x0a then []
    else if rx[0] == 0x0d then Typed(rx[1..])
    else [rx[0]] + Typed(rx[1..])
  }

  /** nick of length ni after t was appended, as far as the fifteen characters reach. */
  function Appended(nick: seq<u8>, ni: nat, t: seq<u8>): (r: seq<u8>)
    requires |nick| == NICK_CAP && ni < NICK_CAP
    ensures |r| == NICK_CAP
  {
    var u := if |t| <= NICK_CAP - 1 - ni then t else t[..NICK_CAP - 1 - ni];
    if u == [] then nick else nick[..ni] + u + [0] + nick[ni + |u| + 1..]
  }

  /** A line typed into a fresh entry becomes the nickname: everything before CR and LF, when there is nothing else
      special in it and it is at most fifteen characters long; whatever follows the LF in the segment is dropped. */
  lemma NameEntered(nick: seq<u8>, line: seq<u8>, rest: seq<u8>)
    requires |nick| == NICK_CAP && nick[0] == 0 && |line| <= 15 && forall c :: c in line ==> c != 0x0a && c != 0x0d && c != 0
    ensures Typed(line + [0x0d, 0x0a] + rest) == line
    ensures NickText(nick) == [] && NickText(Appended(nick, 0, line)) == line
  {
    TypedLine(line, rest);
    if line != [] {
      var r := Appended(nick, 0, line);
      assert r[..|line|] == line && r[|line|] == 0;
      TextIs(r, line);
    }
  }

  lemma {:induction false} TypedLine(line: seq<u8>, rest: seq<u8>)
    requires forall c :: c in line ==> c != 0x0a && c != 0x0d
    ensures Typed(line + [0x0d, 0x0a] + rest) == line
    decreases |line|
  {
    var s := line + [0x0d, 0x0a] + rest;
    if line == [] {
      assert s[0] == 0x0d && s[1..][0] == 0x0a;
    } else {
      assert s[0] == line[0] && line[0] in line;
      assert s[1..] == line[1..] + [0x0d, 0x0a] + rest;
      assert forall c :: c in line[1..] ==> c in line;
      TypedLine(line[1..], rest);
    }
  }

  lemma {:induction false} TextIs(nick: seq<u8>, t: seq<u8>)
    requires |t| < |nick| && nick[..|t|] == t && nick[|t|] == 0 && forall c :: c in t ==> c != 0
    ensures NickText(nick) == t
    decreases |t|
  {
    if t != [] {
      assert nick[0] == t[0] && t[0] in t;
      assert forall c :: c in t[1..] ==> c in t;
      TextIs(nick[1..], t[1..]);
    }
  }

  /** The characters of a nickname, up to its NUL. */
  function NickText(nick: seq<u8>): (r: seq<u8>)
    ensures r <= nick && (forall k :: 0 <= k < |r| ==> nick[k] != 0) && (|r| < |nick| ==> nick[|r|] == 0)
  {
    if nick == [] || nick[0] == 0 then [] else [nick[0]] + NickText(nick[1..])
  }

  function Ascii(s: string): (r: seq<u8>)
    ensures |r| == |s|
  {
    seq(|s|, i requires 0 <= i < |s| => s[i] as int % 0x100)
  }

  // ---- messages to the room ---------------------------------------------------

  /** Ready members other than skip, in table order from entry i on. */
  function Recipients(c: Clients, ready: seq<bool>, socks: Socks, skip: Option<nat>, i: nat): (r: seq<nat>)
    requires |c| == |ready| && i <= |c| && forall j :: 0 <= j < |c| && c[j].Some? ==> c[j].value < |socks|
    ensures forall k :: 0 <= k < |r| ==> r[k] < |socks|
    decreases |c| - i
  {
    if i == |c| then []
    else
      var rest := Recipients(c, ready, socks, skip, i + 1);
      if c[i].Some? && c[i] != skip && ready[i] && socks[c[i].value].state == Tcp.Established then [c[i].value] + rest else rest
  }

  /** Every message of msgs written to slot s, in order. */
  function SendAll(kernel: nat -> bool, n: Tcp.Net, s: nat, msgs: seq<seq<u8>>): (r: Tcp.Net)
    requires s < |n.socks| && forall m :: m in msgs ==> |m| < M32
    ensures |r.socks| == |n.socks|
    decreases |msgs|
  {
    if msgs == [] then n else SendAll(kernel, Tcp.Send(kernel, n, s, msgs[0], Tcp.ACK), s, msgs[1..])
  }

  function Multicast(kernel: nat -> bool, n: Tcp.Net, to: seq<nat>, msgs: seq<seq<u8>>): (r: Tcp.Net)
    requires (forall k :: 0 <= k < |to| ==> to[k] < |n.socks|) && forall m :: m in msgs ==> |m| < M32
    ensures |r.socks| == |n.socks|
    decreases |to|
  {
    if to == [] then n else Multicast(kernel, SendAll(kernel, n, to[0], msgs), to[1..], msgs)
  }

  /** A recipient occurs once: each member gets each message once, and nobody else gets it. */
  lemma {:induction false} RecipientsExact(c: Clients, ready: seq<bool>, socks: Socks, skip: Option<nat>, i: nat)
    requires WellFormed(c) && |ready| == |c| && |socks| == Tcp.MAX_SOCKETS && i <= |c|
    ensures var r := Recipients(c, ready, socks, skip, i);
            && (forall s :: s in r <==> exists j :: i <= j < |c| && c[j] == Some(s) && c[j] != skip && ready[j] && socks[s].state == Tcp.Established)
            && (forall a, b :: 0 <= a < b < |r| ==> r[a] != r[b])
    decreases |c| - i
  {
    if i < |c| {
      RecipientsExact(c, ready, socks, skip, i + 1);
    }
  }

  ghost predicate Attempt(o: Tcp.Obs, s: nat, m: seq<u8>) {
    o.slot == s && (o.CraftFailed? || (o.Emitted? && o.data == m && o.flags == Tcp.ACK))
  }

  /** The (slot, message) pairs a multicast goes through. */
  function Script(to: seq<nat>, msgs: seq<seq<u8>>): seq<(nat, seq<u8>)> {
    if to == [] then [] else ToSlot(to[0], msgs) + Script(to[1..], msgs)
  }

  function ToSlot(s: nat, msgs: seq<seq<u8>>): seq<(nat, seq<u8>)> {
    if msgs == [] then [] else [(s, msgs[0])] + ToSlot(s, msgs[1..])
  }

  /** What the history gained since it was `before`: one attempt per pair, in order, with its bytes if it went out. */
  ghost predicate Gained(before: seq<Tcp.Obs>, after: seq<Tcp.Obs>, script: seq<(nat, seq<u8>)>) {
    && |after| == |before| + |script| && after[..|before|] == before
    && forall k :: |before| <= k < |after| ==> Attempt(after[k], script[k - |before|].0, script[k - |before|].1)
  }

  lemma GainedTwice(a: seq<Tcp.Obs>, b: seq<Tcp.Obs>, c: seq<Tcp.Obs>, x: seq<(nat, seq<u8>)>, y: seq<(nat, seq<u8>)>)
    requires Gained(a, b, x) && Gained(b, c, y)
    ensures Gained(a, c, x + y)
  {
    assert c[..|a|] == c[..|b|][..|a|];
    forall k | |a| <= k < |c| ensures Attempt(c[k], (x + y)[k - |a|].0, (x + y)[k - |a|].1) {
      if k < |b| {
        assert c[k] == c[..|b|][k] == b[k];
      } else {
        assert (x + y)[k - |a|] == y[k - |b|];
      }
    }
  }

  lemma {:induction false} SendAllObserved(kernel: nat -> bool, n: Tcp.Net, s: nat, msgs: seq<seq<u8>>)
    requires s < |n.socks| && forall m :: m in msgs ==> |m| < M32
    ensures Gained(n.trace, SendAll(kernel, n, s, msgs).trace, ToSlot(s, msgs))
    ensures SameConnections(SendAll(kernel, n, s, msgs).socks, n.socks)
    decreases |msgs|
  {
    if msgs != [] {
      var m := Tcp.Send(kernel, n, s, msgs[0], Tcp.ACK);
      SendAllObserved(kernel, m, s, msgs[1..]);
      assert Gained(n.trace, m.trace, [(s, msgs[0])]);
      GainedTwice(n.trace, m.trace, SendAll(kernel, n, s, msgs).trace, [(s, msgs[0])], ToSlot(s, msgs[1..]));
    }
  }

  /** Multicast makes exactly one attempt per recipient and message, recipient by recipient. */
  lemma {:induction false} MulticastObserved(kernel: nat -> bool, n: Tcp.Net, to: seq<nat>, msgs: seq<seq<u8>>)
    requires (forall k :: 0 <= k < |to| ==> to[k] < |n.socks|) && forall m :: m in msgs ==> |m| < M32
    ensures Gained(n.trace, Multicast(kernel, n, to, msgs).trace, Script(to, msgs))
    ensures SameConnections(Multicast(kernel, n, to, msgs).socks, n.socks)
    decreases |to|
  {
    if to != [] {
      var m := SendAll(kernel, n, to[0], msgs);
      SendAllObserved(kernel, n, to[0], msgs);
      MulticastObserved(kernel, m, to[1..], msgs);
      GainedTwice(n.trace, m.trace, Multicast(kernel, n, to, msgs).trace, ToSlot(to[0], msgs), Script(to[1..], msgs));
    }
  }

  predicate ReadyFor(c: Clients, ready: seq<bool>, socks: Socks) {
    |c| == |ready| && forall j :: 0 <= j < |c| && c[j].Some? ==> c[j].value < |socks|
  }

  lemma {:induction false} SendAllQuiet(kernel: nat -> bool, n: Tcp.Net, s: nat, msgs: seq<seq<u8>>)
    requires s < |n.socks| && forall m :: m in msgs ==> |m| < M32
    ensures Quiet(n, SendAll(kernel, n, s, msgs))
    decreases |msgs|
  {
    if msgs != [] {
      var m := Tcp.Send(kernel, n, s, msgs[0], Tcp.ACK);
      SendQuiet(kernel, n, s, msgs[0], Tcp.ACK);
      SendAllQuiet(kernel, m, s, msgs[1..]);
      QuietTwice(n, m, SendAll(kernel, n, s, msgs));
    }
  }

  /** Messages to the room leave everybody's received data alone. */
  lemma {:induction false} MulticastQuiet(kernel: nat -> bool, n: Tcp.Net, to: seq<nat>, msgs: seq<seq<u8>>)
    requires (forall k :: 0 <= k < |to| ==> to[k] < |n.socks|) && forall m :: m in msgs ==> |m| < M32
    ensures Quiet(n, Multicast(kernel, n, to, msgs))
    decreases |to|
  {
    if to != [] {
      var m := SendAll(kernel, n, to[0], msgs);
      SendAllQuiet(kernel, n, to[0], msgs);
      MulticastQuiet(kernel, m, to[1..], msgs);
      QuietTwice(n, m, Multicast(kernel, n, to, msgs));
    }
  }

  lemma RepliesQuiet(kernel: nat -> bool, n: Tcp.Net, c: Clients, ready: seq<bool>, s: nat, rx: seq<u8>, accepted: bool, nick: seq<u8>)
    requires ReadyFor(c, ready, n.socks) && s < |n.socks| && |nick| <= NICK_CAP
    ensures Quiet(n, NickReplies(kernel, n, c, ready, s, rx, accepted, nick))
  {
    if 0x0a in rx {
      if accepted {
        var welcome := Ascii("[room] welcome, ") + nick + Ascii("!\r\n");
        var m := Tcp.Send(kernel, n, s, welcome, Tcp.ACK);
        SendQuiet(kernel, n, s, welcome, Tcp.ACK);
        MulticastQuiet(kernel, m, Recipients(c, ready, m.socks, Some(s), 0), [Ascii("[room] ") + nick + Ascii(" joined\r\n")]);
        QuietTwice(n, m, Welcomed(kernel, n, c, ready, s, nick));
      } else {
        SendQuiet(kernel, n, s, Ascii("nick cannot be empty\r\nnick: "), Tcp.ACK);
      }
    }
  }

  /** One iteration on received data: the room has read exactly what was accepted on each connection, again, if and
      only if the packet's data fits one read and brings no FIN. */
  lemma CleanIteration(kernel: nat -> bool, n: Tcp.Net, p: Tcp.Packet, b: Tcp.Net, d: Tcp.Net, e: Tcp.Net, c: Clients)
    requires n.Sized() && p.Valid() && Serving(n.socks) && Clean(n) && |c| == MAX_CLIENTS
    requires Quiet(Tcp.OnPacket(kernel, n, p, 0), b) && SameConnections(b.socks, Tcp.OnPacket(kernel, n, p, 0).socks)
    requires ReadSome(b, d, c, MAX_CLIENTS) && Quiet(d, e)
    requires Entered(b.socks, c, Tcp.MAX_SOCKETS) && WellFormed(c)
    ensures Clean(e) <==> Harmless(n.socks, p)
  {
    hide TcpDemux.Gives, TcpDemux.Opened, Tcp.OnPacket;
    assert c[..MAX_CLIENTS] == c;
    forall s | 0 <= s < Tcp.MAX_SOCKETS
      ensures CleanAt(e, s) <==> (TcpDemux.Gives(n.socks, p, 0, s) ==> |p.Data()| <= ROOM_READ && !p.Has(Tcp.FIN))
    {
      CleanSlot(kernel, n, p, b, d, e, c, s);
    }
    Tcp.OnPacketSized(kernel, n, p, 0);
    hide CleanAt;
    assert Clean(e) <==> forall s :: 0 <= s < |e.socks| ==> CleanAt(e, s);
  }

  lemma CleanSlot(kernel: nat -> bool, n: Tcp.Net, p: Tcp.Packet, b: Tcp.Net, d: Tcp.Net, e: Tcp.Net, c: Clients, s: nat)
    requires n.Sized() && p.Valid() && Serving(n.socks) && Clean(n) && |c| == MAX_CLIENTS && s < Tcp.MAX_SOCKETS
    requires Quiet(Tcp.OnPacket(kernel, n, p, 0), b) && SameConnections(b.socks, Tcp.OnPacket(kernel, n, p, 0).socks)
    requires ReadSome(b, d, c, MAX_CLIENTS) && Quiet(d, e)
    requires Entered(b.socks, c, Tcp.MAX_SOCKETS) && WellFormed(c) && c[..MAX_CLIENTS] == c
    ensures |e.socks| == |n.socks|
    ensures CleanAt(e, s) <==> (TcpDemux.Gives(n.socks, p, 0, s) ==> |p.Data()| <= ROOM_READ && !p.Has(Tcp.FIN))
  {
    hide TcpDemux.Opened, Tcp.OnPacket, TcpRuns.Rcvd, TcpRuns.Handed, Tcp.Packet.Data;
    var m := Tcp.OnPacket(kernel, n, p, 0);
    Tcp.OnPacketSized(kernel, n, p, 0);
    PacketKeepsServing(kernel, n, p, 0);
    var gives := TcpDemux.Gives(n.socks, p, 0, s);
    var read := Some(s) in c && b.socks[s].state == Tcp.Established;
    if gives {
      // the listener in slot 0 would have taken a SYN
      assert !p.Has(Tcp.SYN);
      TcpDemux.OpenedNeedsSyn(n.socks, p, 0);
      TcpDemux.PacketGives(kernel, n, p, 0, s);
      assert read == !p.Has(Tcp.FIN);
    }
    assert TcpDemux.SameData(m, b, s) && TcpDemux.SameData(d, e, s);
    SlotThrough(kernel, n, p, b, d, read, s);
  }

  lemma NoneLeft(kernel: nat -> bool, n: Tcp.Net, c: Clients, ready: seq<bool>, socks: Socks, skip: Option<nat>, msgs: seq<seq<u8>>)
    requires ReadyFor(c, ready, socks) && forall x :: x in msgs ==> |x| < M32
    ensures Multicast(kernel, n, Recipients(c, ready, socks, skip, |c|), msgs) == n
  {
  }

  /** What a confirmed nickname sends: the welcome to its owner, the announcement to the others. */
  function Welcomed(kernel: nat -> bool, n: Tcp.Net, c: Clients, ready: seq<bool>, s: nat, nick: seq<u8>): Tcp.Net
    requires ReadyFor(c, ready, n.socks) && s < |n.socks| && |nick| <= NICK_CAP
  {
    var m := Tcp.Send(kernel, n, s, Ascii("[room] welcome, ") + nick + Ascii("!\r\n"), Tcp.ACK);
    Multicast(kernel, m, Recipients(c, ready, m.socks, Some(s), 0), [Ascii("[room] ") + nick + Ascii(" joined\r\n")])
  }

  /** What a segment of nickname bytes sends; nick is the name it leaves. */
  function NickReplies(kernel: nat -> bool, n: Tcp.Net, c: Clients, ready: seq<bool>, s: nat, rx: seq<u8>,
                       accepted: bool, nick: seq<u8>): Tcp.Net
    requires ReadyFor(c, ready, n.socks) && s < |n.socks| && |nick| <= NICK_CAP
  {
    if 0x0a !in rx then n
    else if !accepted then Tcp.Send(kernel, n, s, Ascii("nick cannot be empty\r\nnick: "), Tcp.ACK)
    else Welcomed(kernel, n, c, ready, s, nick)
  }

  /** One entry of the sending loop: what is left to do at i + 1 completes what was left at i. */
  lemma MulticastStep(kernel: nat -> bool, n: Tcp.Net, m: Tcp.Net, c: Clients, ready: seq<bool>, socks: Socks,
                      skip: Option<nat>, i: nat, sent: bool, msgs: seq<seq<u8>>)
    requires i < |c| == |ready| && |n.socks| == |socks| == |m.socks| && forall x :: x in msgs ==> |x| < M32
    requires forall j :: 0 <= j < |c| && c[j].Some? ==> c[j].value < |socks|
    requires sent <==> c[i].Some? && c[i] != skip && ready[i] && socks[c[i].value].state == Tcp.Established
    requires m == if sent then SendAll(kernel, n, c[i].value, msgs) else n
    ensures Multicast(kernel, n, Recipients(c, ready, socks, skip, i), msgs)
         == Multicast(kernel, m, Recipients(c, ready, socks, skip, i + 1), msgs)
  {
    var rest := Recipients(c, ready, socks, skip, i + 1);
    if sent {
      assert ([c[i].value] + rest)[1..] == rest;
    }
  }

  lemma {:induction false} RecipientsSame(c: Clients, ready: seq<bool>, a: Socks, b: Socks, skip: Option<nat>, i: nat)
    requires ReadyFor(c, ready, a) && |a| == |b| && i <= |c|
    requires forall s :: 0 <= s < |a| ==> a[s].state == b[s].state
    ensures Recipients(c, ready, a, skip, i) == Recipients(c, ready, b, skip, i)
    decreases |c| - i
  {
    if i < |c| {
      RecipientsSame(c, ready, a, b, skip, i + 1);
    }
  }

  function Times(a: nat, m: nat): nat { if a == 0 then 0 else m + Times(a - 1, m) }

  lemma {:induction false} TimesBelow(a: nat, n: nat, m: nat)
    requires a < n
    ensures Times(a, m) + m <= Times(n, m)
  {
    if a < n - 1 {
      TimesBelow(a, n - 1, m);
    }
  }

  /** A script has each message once for each recipient, recipient by recipient in order. */
  lemma {:induction false} ScriptExact(to: seq<nat>, msgs: seq<seq<u8>>, a: nat, b: nat)
    requires a < |to| && b < |msgs|
    ensures |Script(to, msgs)| == Times(|to|, |msgs|) && Times(a, |msgs|) + b < Times(|to|, |msgs|)
    ensures Script(to, msgs)[Times(a, |msgs|) + b] == (to[a], msgs[b])
    decreases |to|
  {
    TimesBelow(a, |to|, |msgs|);
    ToSlotExact(to[0], msgs);
    ScriptLength(to, msgs);
    if a > 0 {
      ScriptExact(to[1..], msgs, a - 1, b);
    }
  }

  lemma {:induction false} ScriptLength(to: seq<nat>, msgs: seq<seq<u8>>)
    ensures |Script(to, msgs)| == Times(|to|, |msgs|)
    decreases |to|
  {
    if to != [] {
      ToSlotExact(to[0], msgs);
      ScriptLength(to[1..], msgs);
    }
  }

  lemma {:induction false} ToSlotExact(s: nat, msgs: seq<seq<u8>>)
    ensures |ToSlot(s, msgs)| == |msgs| && forall b :: 0 <= b < |msgs| ==> ToSlot(s, msgs)[b] == (s, msgs[b])
    decreases |msgs|
  {
    if msgs != [] {
      ToSlotExact(s, msgs[1..]);
    }
  }

  // ---- what a pass says ------------------------------------------------------------

  /** The sends for a segment of nickname bytes; nick is the name it leaves. */
  function NickScript(c: Clients, ready: seq<bool>, socks: Socks, s: nat, rx: seq<u8>, accepted: bool, nick: seq<u8>): seq<(nat, seq<u8>)>
    requires ReadyFor(c, ready, socks)
  {
    if 0x0a !in rx then []
    else if !accepted then [(s, Ascii("nick cannot be empty\r\nnick: "))]
    else
      var joined := Script(Recipients(c, ready, socks, Some(s), 0), [Ascii("[room] ") + nick + Ascii(" joined\r\n")]);
      [(s, Ascii("[room] welcome, ") + nick + Ascii("!\r\n"))] + joined
  }

  /** What hearing rx from entry i does: a confirmed member's bytes go to every other ready member behind "[nick] ", and
      change nothing; anyone else's go into the nickname, with the replies of NickScript. u and t are the history before
      and after. */
  ghost predicate Heard(d: Desk, e: Desk, socks: Socks, i: nat, rx: seq<u8>, u: seq<Tcp.Obs>, t: seq<Tcp.Obs>) {
    && d.Sized() && e.Sized() && i < MAX_CLIENTS && d.c[i].Some? && ReadyFor(d.c, d.ready, socks) && NickOk(d.nicks[i])
    && var s, name := d.c[i].value, NickText(d.nicks[i]);
    if d.ready[i] then
      e == d && Gained(u, t, Script(Recipients(d.c, d.ready, socks, Some(s), 0), [[0x5b] + name + [0x5d, 0x20], rx]))
    else
      && e == Desk(d.c, d.ready[i := 0x0a in rx && name + Typed(rx) != []], d.nicks[i := Appended(d.nicks[i], |name|, Typed(rx))])
      && Gained(u, t, NickScript(d.c, e.ready, socks, s, rx, e.ready[i], NickText(e.nicks[i])))
  }

  /** One turn of the reading loop: what was read, and table and history before and after. */
  datatype Turn = Turn(rx: seq<u8>, desk: Desk, next: Desk, from: seq<Tcp.Obs>, to: seq<Tcp.Obs>)

  /** Entry i's turn: its connection, if up, is read once, and what comes is heard. */
  ghost predicate TurnOk(t: Turn, socks: Socks, i: nat) {
    && t.desk.Sized() && i < MAX_CLIENTS && ReadyFor(t.desk.c, t.desk.ready, socks)
    && if t.desk.c[i].Some? && socks[t.desk.c[i].value].state == Tcp.Established then
         var s := t.desk.c[i].value;
         var read := t.from + [Tcp.Delivered(s, t.rx)];
         && (socks[s].rx_len <= |socks[s].rx_buffer| || ROOM_READ <= |socks[s].rx_buffer|)
         && t.rx == Tcp.Take(socks[s], ROOM_READ)
         && if t.rx == [] then t.next == t.desk && t.to == read else Heard(t.desk, t.next, socks, i, t.rx, read, t.to)
       else t.next == t.desk && t.to == t.from
  }

  /** The table and the history before turn k, from d and u on. */
  function DeskBefore(ts: seq<Turn>, d: Desk, k: nat): Desk
    requires k <= |ts|
  {
    if k == 0 then d else ts[k - 1].next
  }

  function TraceBefore(ts: seq<Turn>, u: seq<Tcp.Obs>, k: nat): seq<Tcp.Obs>
    requires k <= |ts|
  {
    if k == 0 then u else ts[k - 1].to
  }

  /** All turns, one behind the other, from table d and history u to e and t. */
  ghost predicate Turns(ts: seq<Turn>, socks: Socks, d: Desk, e: Desk, u: seq<Tcp.Obs>, t: seq<Tcp.Obs>) {
    && (forall k :: 0 <= k < |ts| ==>
          TurnOk(ts[k], socks, k) && ts[k].desk == DeskBefore(ts, d, k) && ts[k].from == TraceBefore(ts, u, k))
    && e == DeskBefore(ts, d, |ts|) && t == TraceBefore(ts, u, |ts|)
  }

  /** Reading at the same connections with the same bytes waiting at slot c[i] is the same turn. */
  lemma SameTurn(t: Turn, a: Socks, b: Socks, i: nat)
    requires TurnOk(t, a, i) && |a| == |b| && forall s :: 0 <= s < |a| ==> a[s].state == b[s].state
    requires t.desk.c[i].Some? ==>
      b[t.desk.c[i].value].rx_buffer == a[t.desk.c[i].value].rx_buffer && b[t.desk.c[i].value].rx_len == a[t.desk.c[i].value].rx_len
    ensures TurnOk(t, b, i)
  {
    if t.desk.c[i].Some? {
      RecipientsSame(t.desk.c, t.desk.ready, a, b, t.desk.c[i], 0);
      if t.next.Sized() && ReadyFor(t.desk.c, t.next.ready, a) {
        RecipientsSame(t.desk.c, t.next.ready, a, b, t.desk.c[i], 0);
      }
    }
  }

  lemma ForwardGained(kernel: nat -> bool, n: Tcp.Net, d: Desk, i: nat, rx: seq<u8>)
    requires d.Sized() && i < MAX_CLIENTS && d.c[i].Some? && ReadyFor(d.c, d.ready, n.socks) && NickOk(d.nicks[i]) && d.ready[i]
    requires |rx| < M32
    ensures var msgs := [[0x5b] + NickText(d.nicks[i]) + [0x5d, 0x20], rx];
            && (forall m :: m in msgs ==> |m| < M32)
            && Heard(d, d, n.socks, i, rx, n.trace, Multicast(kernel, n, Recipients(d.c, d.ready, n.socks, d.c[i], 0), msgs).trace)
  {
    MulticastObserved(kernel, n, Recipients(d.c, d.ready, n.socks, d.c[i], 0), [[0x5b] + NickText(d.nicks[i]) + [0x5d, 0x20], rx]);
  }

  lemma RepliesGained(kernel: nat -> bool, n: Tcp.Net, c: Clients, ready: seq<bool>, s: nat, rx: seq<u8>, accepted: bool, nick: seq<u8>)
    requires ReadyFor(c, ready, n.socks) && s < |n.socks| && |nick| <= NICK_CAP
    ensures Gained(n.trace, NickReplies(kernel, n, c, ready, s, rx, accepted, nick).trace,
                   NickScript(c, ready, n.socks, s, rx, accepted, nick))
  {
    if 0x0a in rx {
      if accepted {
        var welcome := Ascii("[room] welcome, ") + nick + Ascii("!\r\n");
        var joined := Ascii("[room] ") + nick + Ascii(" joined\r\n");
        var m := Tcp.Send(kernel, n, s, welcome, Tcp.ACK);
        RecipientsSame(c, ready, n.socks, m.socks, Some(s), 0);
        var to := Recipients(c, ready, m.socks, Some(s), 0);
        MulticastObserved(kernel, m, to, [joined]);
        assert Gained(n.trace, m.trace, [(s, welcome)]);
        GainedTwice(n.trace, m.trace, Multicast(kernel, m, to, [joined]).trace, [(s, welcome)], Script(to, [joined]));
      } else {
        assert Gained(n.trace, Tcp.Send(kernel, n, s, Ascii("nick cannot be empty\r\nnick: "), Tcp.ACK).trace,
                      [(s, Ascii("nick cannot be empty\r\nnick: "))]);
      }
    }
  }

  lemma HeardSame(d: Desk, e: Desk, a: Socks, b: Socks, i: nat, rx: seq<u8>, u: seq<Tcp.Obs>, t: seq<Tcp.Obs>)
    requires Heard(d, e, a, i, rx, u, t) && |a| == |b| && forall s :: 0 <= s < |a| ==> a[s].state == b[s].state
    ensures Heard(d, e, b, i, rx, u, t)
  {
    RecipientsSame(d.c, d.ready, a, b, d.c[i], 0);
    RecipientsSame(d.c, e.ready, a, b, d.c[i], 0);
  }

  lemma NextTurn(ts: seq<Turn>, t: Turn, socks: Socks, d: Desk, e: Desk, u: seq<Tcp.Obs>, v: seq<Tcp.Obs>)
    requires Turns(ts, socks, d, e, u, v) && TurnOk(t, socks, |ts|) && t.desk == e && t.from == v
    ensures Turns(ts + [t], socks, d, t.next, u, t.to)
  {
    hide TurnOk;
    var r := ts + [t];
    forall k | 0 <= k < |r|
      ensures TurnOk(r[k], socks, k) && r[k].desk == DeskBefore(r, d, k) && r[k].from == TraceBefore(r, u, k)
    {
      if k < |ts| {
        assert r[k] == ts[k];
      }
    }
  }

  lemma TurnKeeps(t: Turn, socks: Socks, i: nat)
    requires TurnOk(t, socks, i)
    ensures KeepsReady(t.desk, t.next) && t.from <= t.to
  {
    hide NickText, Typed, Appended, Script, NickScript;
    if t.desk.c[i].Some? && socks[t.desk.c[i].value].state == Tcp.Established && t.rx != [] {
      var read := t.from + [Tcp.Delivered(t.desk.c[i].value, t.rx)];
      assert t.to[..|read|] == read;
    }
  }

  lemma {:induction false} TurnsKeep(ts: seq<Turn>, socks: Socks, d: Desk, e: Desk, u: seq<Tcp.Obs>, t: seq<Tcp.Obs>, a: nat, b: nat)
    requires Turns(ts, socks, d, e, u, t) && d.Sized() && a <= b <= |ts|
    ensures KeepsReady(DeskBefore(ts, d, a), DeskBefore(ts, d, b)) && TraceBefore(ts, u, a) <= TraceBefore(ts, u, b)
    decreases b
  {
    if b > 0 {
      LastTurn(ts, socks, d, e, u, t, b - 1);
    }
    FirstDesk(ts, d);
    hide TurnOk;
    if a < b {
      TurnsKeep(ts, socks, d, e, u, t, a, b - 1);
      hide Turns, DeskBefore, TraceBefore, KeepsReady;
      KeepsTwice(DeskBefore(ts, d, a), DeskBefore(ts, d, b - 1), DeskBefore(ts, d, b));
    } else {
      assert b > 0 ==> KeepsReady(DeskBefore(ts, d, b - 1), DeskBefore(ts, d, b));
      assert DeskBefore(ts, d, b).Sized();
      hide Turns, DeskBefore, TraceBefore;
      KeepsSelf(DeskBefore(ts, d, b));
    }
  }

  lemma KeepsSelf(d: Desk)
    requires d.Sized()
    ensures KeepsReady(d, d)
  {
  }

  lemma FirstDesk(ts: seq<Turn>, d: Desk)
    ensures DeskBefore(ts, d, 0) == d
  {
  }

  lemma LastTurn(ts: seq<Turn>, socks: Socks, d: Desk, e: Desk, u: seq<Tcp.Obs>, t: seq<Tcp.Obs>, k: nat)
    requires Turns(ts, socks, d, e, u, t) && k < |ts|
    ensures KeepsReady(DeskBefore(ts, d, k), DeskBefore(ts, d, k + 1)) && TraceBefore(ts, u, k) <= TraceBefore(ts, u, k + 1)
  {
    hide TurnOk;
    TurnKeeps(ts[k], socks, k);
  }

  lemma KeepsTwice(a: Desk, b: Desk, c: Desk)
    requires KeepsReady(a, b) && KeepsReady(b, c)
    ensures KeepsReady(a, c)
  {
    forall j | 0 <= j < MAX_CLIENTS && a.ready[j] ensures c.SameAt(a, j) {
      assert b.SameAt(a, j);
    }
  }

  /** Slot s is the live connection of an entry that is ready by the end. */
  ghost predicate Listening(d: Desk, e: Desk, socks: Socks, s: nat) {
    && d.Sized() && e.Sized() && s < |socks| && socks[s].state == Tcp.Established
    && exists k :: 0 <= k < MAX_CLIENTS && d.c[k] == Some(s) && e.ready[k]
  }

  /** Every message reaches the room: what waits for a confirmed member is read in its turn and tried, behind "[nick] ",
      once for each recipient; every other member that was ready and is connected is one, and nobody who is not ready
      or not connected, nor the sender. */
  lemma MessageForwarded(ts: seq<Turn>, socks: Socks, d: Desk, e: Desk, u: seq<Tcp.Obs>, t: seq<Tcp.Obs>, j: nat) returns (to: seq<nat>)
    requires Turns(ts, socks, d, e, u, t) && |ts| == MAX_CLIENTS && d.Sized() && WellFormed(d.c) && |socks| == Tcp.MAX_SOCKETS
    requires j < MAX_CLIENTS && d.c[j].Some? && d.ready[j] && socks[d.c[j].value].state == Tcp.Established
    requires var s := socks[d.c[j].value]; |s.rx_buffer| == Tcp.RX_BUFFER_SIZE && 0 < s.rx_len
    ensures var s := socks[d.c[j].value];
            var rx := s.rx_buffer[..if s.rx_len < 1023 then s.rx_len else 1023];
            var read := ts[j].from + [Tcp.Delivered(d.c[j].value, rx)];
            && u <= ts[j].from && ts[j].to <= t
            && Gained(read, ts[j].to, Script(to, [[0x5b] + NickText(d.nicks[j]) + [0x5d, 0x20], rx]))
    ensures forall k :: 0 <= k < MAX_CLIENTS && k != j && d.c[k].Some? && d.ready[k] && socks[d.c[k].value].state == Tcp.Established
              ==> d.c[k].value in to
    ensures forall s :: s in to ==> Listening(d, e, socks, s) && d.c[j] != Some(s)
    ensures forall a, b :: 0 <= a < b < |to| ==> to[a] != to[b]
  {
    var before := DeskBefore(ts, d, j);
    TurnsKeep(ts, socks, d, e, u, t, 0, j);
    TurnsKeep(ts, socks, d, e, u, t, j, |ts|);
    TurnsKeep(ts, socks, d, e, u, t, j + 1, |ts|);
    assert TurnOk(ts[j], socks, j);
    assert before.SameAt(d, j);
    to := Recipients(d.c, before.ready, socks, d.c[j], 0);
    RecipientsExact(d.c, before.ready, socks, d.c[j], 0);
    hide NickText, Script, Recipients, Typed, Appended, NickScript;
    forall k | 0 <= k < MAX_CLIENTS && k != j && d.c[k].Some? && d.ready[k] && socks[d.c[k].value].state == Tcp.Established
      ensures d.c[k].value in to
    {
      assert before.SameAt(d, k) && d.c[k] != d.c[j];
    }
    forall s | s in to
      ensures Listening(d, e, socks, s) && d.c[j] != Some(s)
    {
      var k :| 0 <= k < MAX_CLIENTS && d.c[k] == Some(s) && d.c[k] != d.c[j] && before.ready[k] && socks[s].state == Tcp.Established;
      assert e.SameAt(before, k);
    }
  }

  lemma GainedNone(t: seq<Tcp.Obs>)
    ensures Gained(t, t, [])
  {
  }

  /** The prompts for the connections among the first n slots that have no entry in c. */
  function Prompts(c: Clients, socks: Socks, n: nat): seq<(nat, seq<u8>)>
    requires n <= |socks|
  {
    if n == 0 then []
    else Prompts(c, socks, n - 1) + Prompt(c, socks, n - 1)
  }

  function Prompt(c: Clients, socks: Socks, s: nat): seq<(nat, seq<u8>)>
    requires s < |socks|
  {
    if s != SERVER && Member(socks[s]) && Some(s) !in c then [(s, Ascii("\r\nnick: "))] else []
  }

  lemma PromptsNext(c: Clients, socks: Socks, n: nat)
    requires n < |socks|
    ensures Prompts(c, socks, n + 1) == Prompts(c, socks, n) + Prompt(c, socks, n)
  {
  }

  lemma PromptSame(a: Clients, x: Socks, b: Clients, y: Socks, s: nat)
    requires s < |x| && SameConnections(x, y) && (Some(s) in a <==> Some(s) in b)
    ensures Prompt(a, x, s) == Prompt(b, y, s)
  {
  }

  /** An entry whose connection is gone. */
  predicate Gone(d: Desk, socks: Socks, i: nat)
    requires d.Sized() && i < MAX_CLIENTS
  {
    d.c[i].Some? && d.c[i].value < |socks| && !(socks[d.c[i].value].used && socks[d.c[i].value].state != Tcp.Closed)
  }

  function Dropped(d: Desk, i: nat): Desk
    requires d.Sized() && i < MAX_CLIENTS
  {
    Desk(d.c[i := None], d.ready[i := false], d.nicks[i := if |d.nicks[i]| > 0 then d.nicks[i][0 := 0] else []])
  }

  /** The farewell for entry i, to those ready once it is dropped. */
  function Farewell(d: Desk, socks: Socks, i: nat): seq<(nat, seq<u8>)>
    requires d.Sized() && i < MAX_CLIENTS && ReadyFor(d.c, d.ready, socks)
  {
    if Gone(d, socks, i) && d.ready[i] then
      Script(Recipients(Dropped(d, i).c, Dropped(d, i).ready, socks, None, 0),
             [Ascii("[room] ") + NickText(d.nicks[i]) + Ascii(" left\r\n")])
    else []
  }

  function Farewells(d: Desk, socks: Socks, i: nat): seq<(nat, seq<u8>)>
    requires d.Sized() && i <= MAX_CLIENTS && ReadyFor(d.c, d.ready, socks)
    decreases MAX_CLIENTS - i
  {
    if i == MAX_CLIENTS then []
    else Farewell(d, socks, i) + Farewells(if Gone(d, socks, i) then Dropped(d, i) else d, socks, i + 1)
  }

  lemma FarewellsNext(d: Desk, socks: Socks, i: nat)
    requires d.Sized() && i < MAX_CLIENTS && ReadyFor(d.c, d.ready, socks)
    ensures var e := if Gone(d, socks, i) then Dropped(d, i) else d;
            && e.Sized() && ReadyFor(e.c, e.ready, socks)
            && Farewells(d, socks, i) == Farewell(d, socks, i) + Farewells(e, socks, i + 1)
  {
  }

  lemma FarewellsEnd(d: Desk, socks: Socks)
    requires d.Sized() && ReadyFor(d.c, d.ready, socks)
    ensures Farewells(d, socks, MAX_CLIENTS) == []
  {
  }

  lemma FarewellSame(d: Desk, a: Socks, b: Socks, i: nat)
    requires d.Sized() && i < MAX_CLIENTS && ReadyFor(d.c, d.ready, a) && SameConnections(a, b)
    ensures Gone(d, a, i) == Gone(d, b, i) && Farewell(d, a, i) == Farewell(d, b, i)
  {
    RecipientsSame(Dropped(d, i).c, Dropped(d, i).ready, a, b, None, 0);
  }

  /** One pass of the main loop: the network once the packet was handled, the table once newcomers had entered and the
      history then, the turns of reading, and table and history after them. */
  datatype Pass = Pass(arrived: Tcp.Net, entered: Desk, asked: seq<Tcp.Obs>, turns: seq<Turn>, heard: Desk, said: seq<Tcp.Obs>)

  /** Connections and waiting bytes are the same after the prompts, and the connections after the reading. */
  lemma PassAt(ts: seq<Turn>, m: Tcp.Net, b: Tcp.Net, r: Tcp.Net, d: Desk, e: Desk)
    requires Quiet(m, b) && SameConnections(b.socks, m.socks) && SameConnections(r.socks, b.socks) && |ts| == MAX_CLIENTS
    requires Turns(ts, b.socks, d, e, b.trace, r.trace) && e.Sized() && ReadyFor(e.c, e.ready, r.socks)
    ensures Turns(ts, m.socks, d, e, b.trace, r.trace)
    ensures ReadyFor(e.c, e.ready, m.socks) && Farewells(e, r.socks, 0) == Farewells(e, m.socks, 0)
  {
    forall k | 0 <= k < |ts| ensures TurnOk(ts[k], m.socks, k) {
      assert TurnOk(ts[k], b.socks, k);
      if ts[k].desk.c[k].Some? {
        assert TcpDemux.SameData(m, b, ts[k].desk.c[k].value);
      }
      SameTurn(ts[k], b.socks, m.socks, k);
    }
    FarewellsSame(e, r.socks, m.socks, 0);
  }

  lemma {:induction false} FarewellsSame(d: Desk, a: Socks, b: Socks, i: nat)
    requires d.Sized() && i <= MAX_CLIENTS && ReadyFor(d.c, d.ready, a) && SameConnections(a, b)
    ensures Farewells(d, a, i) == Farewells(d, b, i)
    decreases MAX_CLIENTS - i
  {
    if i < MAX_CLIENTS {
      FarewellSame(d, a, b, i);
      FarewellsNext(d, a, i);
      FarewellsSame(if Gone(d, a, i) then Dropped(d, i) else d, a, b, i + 1);
    }
  }

  /** Everything a pass sends: prompts to newcomers, then what each entry's turn brings, then farewells. */
  ghost predicate PassOk(log: Pass, kernel: nat -> bool, n: Tcp.Net, p: Tcp.Packet, d: Desk, t: seq<Tcp.Obs>)
    requires |n.socks| == Tcp.MAX_SOCKETS && p.Valid()
  {
    var socks := log.arrived.socks;
    && log.arrived == Tcp.OnPacket(kernel, n, p, 0)
    && Gained(log.arrived.trace, log.asked, Prompts(d.c, socks, Tcp.MAX_SOCKETS)) && KeepsEntries(d, log.entered)
    && WellFormed(log.entered.c)
    && |log.turns| == MAX_CLIENTS && Turns(log.turns, socks, log.entered, log.heard, log.asked, log.said)
    && log.heard.Sized() && ReadyFor(log.heard.c, log.heard.ready, socks)
    && Gained(log.said, t, Farewells(log.heard, socks, 0))
  }

  /** Entry k is a ready member whose connection is up. */
  predicate Present(d: Desk, socks: Socks, k: nat)
    requires d.Sized() && k < MAX_CLIENTS
  {
    d.c[k].Some? && d.ready[k] && d.c[k].value < |socks| && socks[d.c[k].value].state == Tcp.Established
  }

  /** From the wire to the room: in a room that has read everything so far, the data of a packet from a confirmed member
      is tried in the pass, behind "[nick] ", once for each recipient, and every other ready member whose connection is
      up is a recipient. */
  lemma RoomHears(log: Pass, kernel: nat -> bool, n: Tcp.Net, p: Tcp.Packet, d: Desk, t: seq<Tcp.Obs>, j: nat) returns (to: seq<nat>)
    requires n.Sized() && p.Valid() && Serving(n.socks) && Clean(n) && Harmless(n.socks, p) && PassOk(log, kernel, n, p, d, t)
    requires d.Sized() && j < MAX_CLIENTS && d.c[j].Some? && d.c[j].value < Tcp.MAX_SOCKETS && d.ready[j]
    requires TcpDemux.Gives(n.socks, p, 0, d.c[j].value)
    ensures var read := log.turns[j].from + [Tcp.Delivered(d.c[j].value, p.Data())];
            && log.turns[j].to <= t
            && Gained(read, log.turns[j].to, Script(to, [[0x5b] + NickText(d.nicks[j]) + [0x5d, 0x20], p.Data()]))
    ensures forall k :: 0 <= k < MAX_CLIENTS && k != j && Present(d, log.arrived.socks, k) ==> d.c[k].value in to
    ensures d.c[j].value !in to && forall a, b :: 0 <= a < b < |to| ==> to[a] != to[b]
  {
    hide TcpDemux.Gives, TcpDemux.Opened, Tcp.OnPacket, Turns, Tcp.Packet.Data, NickText, Script, Clean, Farewells, Prompts;
    var s := d.c[j].value;
    GivesNoSyn(n, p, s);
    assert |p.Data()| <= ROOM_READ && !p.Has(Tcp.FIN);
    DataWaits(kernel, n, p, s);
    PacketKeepsServing(kernel, n, p, 0);
    Tcp.OnPacketSized(kernel, n, p, 0);
    var e := log.entered;
    assert e.SameAt(d, j);
    to := MessageForwarded(log.turns, log.arrived.socks, e, log.heard, log.asked, log.said, j);
    forall k | 0 <= k < MAX_CLIENTS && k != j && Present(d, log.arrived.socks, k)
      ensures d.c[k].value in to
    {
      assert e.SameAt(d, k);
    }
    assert t[..|log.said|] == log.said;
  }

  lemma GivesNoSyn(n: Tcp.Net, p: Tcp.Packet, s: nat)
    requires n.Sized() && p.Valid() && Serving(n.socks) && TcpDemux.Gives(n.socks, p, 0, s)
    ensures TcpDemux.Opened(n.socks, p, 0).None? && 1 <= s < Tcp.MAX_SOCKETS
  {
    assert !p.Has(Tcp.SYN);
    TcpDemux.OpenedNeedsSyn(n.socks, p, 0);
  }

  // ---- the server ---------------------------------------------------------------

  class Room {
    const net: Stack
    const clients: array<Option<nat>>
    const nick_ready: array<bool>
    const nicks: array<seq<u8>>
    var num_clients: nat

    /** What sending to the room relies on. */
    ghost predicate Wired()
      reads this, net, net.sockets, clients, nick_ready, nicks
    {
      && net.Valid()
      && clients.Length == MAX_CLIENTS && nick_ready.Length == MAX_CLIENTS && nicks.Length == MAX_CLIENTS
      && forall j :: 0 <= j < MAX_CLIENTS && clients[j].Some? ==> clients[j].value < Tcp.MAX_SOCKETS
    }

    /** The shape of the tables: what every step of an iteration relies on. */
    ghost predicate Shaped()
      reads this, net, net.sockets, clients, nick_ready, nicks
    {
      && net.Valid() && Serving(net.sockets[..])
      && clients.Length == MAX_CLIENTS && nick_ready.Length == MAX_CLIENTS && nicks.Length == MAX_CLIENTS
      && WellFormed(clients[..]) && num_clients == Count(clients[..])
      && (forall i :: 0 <= i < MAX_CLIENTS && nick_ready[i] ==> clients[i].Some?)
      && (forall i :: 0 <= i < MAX_CLIENTS ==> NickOk(nicks[i]))
    }

    /** What holds after every iteration: entries and connections are the same slots. */
    ghost predicate Coupled()
      reads this, net, net.sockets, clients, nick_ready, nicks
    {
      Shaped() && InStep(clients[..], net.sockets[..])
    }

    constructor (kernel: nat -> bool)
      ensures Coupled() && fresh(net) && fresh(net.sockets) && fresh(clients) && fresh(nick_ready) && fresh(nicks)
      ensures num_clients == 0 && Clean(net.Abs())
    {
      hide Count, Clean;
      net := new Stack(kernel);
      clients := new Option<nat>[MAX_CLIENTS](i => None);
      nick_ready := new bool[MAX_CLIENTS](i => false);
      nicks := new seq<u8>[MAX_CLIENTS](i => seq(NICK_CAP, k => 0));
      num_clients := 0;
      new;
      StartListening(net);
      NoEntries(clients[..]);
      forall i | 0 <= i < MAX_CLIENTS ensures NickOk(nicks[i]) {
        assert nicks[i][0] == 0;
      }
    }

    /** socket_tcp4, bind and listen on the empty table. */
    static method StartListening(net: Stack)
      requires net.Valid() && net.Abs() == Tcp.Init()
      modifies net, net.sockets
      ensures net.Valid() && Serving(net.sockets[..]) && Clean(net.Abs())
      ensures forall s :: 1 <= s < Tcp.MAX_SOCKETS ==> !net.sockets[s].used
    {
      hide Clean;
      var server := net.SocketTcp4();
      net.Bind(SERVER, CHAT_PORT);
      net.Listen(SERVER);
      ListenerTable(net.Abs());
    }

    static lemma ListenerTable(n: Tcp.Net)
      requires n.trace == []
      requires var z := Tcp.Taken(Tcp.ZeroSocket(), SERVER).(state := Tcp.Closed).(local_port := CHAT_PORT).(state := Tcp.Listening);
               n.socks == Tcp.Init().socks[SERVER := z]
      ensures Serving(n.socks) && Clean(n) && forall s :: 1 <= s < Tcp.MAX_SOCKETS ==> !n.socks[s].used
    {
    }

    static lemma {:induction false} NoEntries(c: Clients)
      requires forall j :: 0 <= j < |c| ==> c[j] == None
      ensures Count(c) == 0
    {
      if c != [] {
        NoEntries(c[..|c| - 1]);
      }
    }

    ghost function Table(): Desk
      reads clients, nick_ready, nicks
    {
      Desk(clients[..], nick_ready[..], nicks[..])
    }

    /** One pass of the server's main loop over a received TCP packet. Members whose connection survives keep their
        entry, and a confirmed nickname never changes. Names and messages are made of their own connection's bytes:
        a room that has read everything accepted on each connection, and nothing else, has done so again afterwards if
        and only if the packet's data fits one read and does not come with a FIN. */
    method ServerIteration(p: Tcp.Packet) returns (ghost log: Pass)
      requires Coupled() && p.Valid()
      modifies this, net, net.sockets, clients, nick_ready, nicks
      ensures Coupled()
      ensures Stable(old(Table()), Table(), net.sockets[..])
      ensures old(Clean(net.Abs())) ==> (Clean(net.Abs()) <==> Harmless(old(net.sockets[..]), p))
      ensures PassOk(log, net.kernel, old(net.Abs()), p, old(Table()), net.trace)
    {
      hide Clean, Harmless, Quiet, ReadSome, Count, Gained, Turns, Prompts, Farewells;
      ghost var n, start := net.Abs(), Table();
      PacketKeepsServing(net.kernel, n, p, 0);
      net.OnTcpPacket(p);
      ghost var m := net.Abs();
      Discover();
      ghost var d, b := Table(), net.Abs();
      ghost var turns := ReadPeers();
      ghost var e, r := Table(), net.Abs();
      Detect();
      log := Pass(m, d, b.trace, turns, e, r.trace);
      PassAt(turns, m, b, r, d, e);
      StableThrough(old(Table()), d, e, Table(), net.sockets[..]);
      if Clean(n) {
        CleanIteration(net.kernel, n, p, b, r, net.Abs(), d.c);
      }
    }

    /** Enter every connection that has no entry yet. */
    method Discover()
      requires Shaped()
      modifies this, net, net.sockets, clients, nick_ready, nicks
      ensures Shaped() && SameConnections(net.sockets[..], old(net.sockets[..]))
      ensures Entered(net.sockets[..], clients[..], Tcp.MAX_SOCKETS) && KeepsEntries(old(Table()), Table())
      ensures Quiet(old(net.Abs()), net.Abs())
      ensures Gained(old(net.trace), net.trace, Prompts(old(clients[..]), old(net.sockets[..]), Tcp.MAX_SOCKETS))
    {
      hide Count, Quiet, Gained, Prompt;
      ghost var c, socks := clients[..], net.sockets[..];
      Unmoved(net.Abs());
      GainedNone(net.trace);
      assert Prompts(c, socks, 0) == [];
      hide Prompts;
      var si := 0;
      while si < Tcp.MAX_SOCKETS
        invariant 0 <= si <= Tcp.MAX_SOCKETS
        invariant Shaped() && SameConnections(net.sockets[..], old(net.sockets[..]))
        invariant Entered(net.sockets[..], clients[..], si) && KeepsEntries(old(Table()), Table())
        invariant Quiet(old(net.Abs()), net.Abs())
        invariant Gained(old(net.trace), net.trace, Prompts(c, socks, si))
        invariant forall x :: si <= x < Tcp.MAX_SOCKETS ==> (Some(x) in clients[..] <==> Some(x) in c)
      {
        ghost var before := net.Abs();
        PromptSame(c, socks, clients[..], before.socks, si);
        DiscoverSlot(si);
        QuietTwice(old(net.Abs()), before, net.Abs());
        PromptsNext(c, socks, si);
        GainedTwice(old(net.trace), before.trace, net.trace, Prompts(c, socks, si), Prompt(c, socks, si));
        si := si + 1;
      }
    }

    method DiscoverSlot(si: nat)
      requires Shaped() && si < Tcp.MAX_SOCKETS
      modifies this, net, net.sockets, clients, nick_ready, nicks
      ensures Shaped() && SameConnections(net.sockets[..], old(net.sockets[..]))
      ensures KeepsEntries(old(Table()), Table())
      ensures si >= 1 && net.sockets[si].used ==> Some(si) in clients[..]
      ensures forall x :: Some(x) in old(clients[..]) ==> Some(x) in clients[..]
      ensures forall x :: x != si && Some(x) in clients[..] ==> Some(x) in old(clients[..])
      ensures Quiet(old(net.Abs()), net.Abs())
      ensures Gained(old(net.trace), net.trace, Prompt(old(clients[..]), old(net.sockets[..]), si))
    {
      hide Quiet, Count;
      Unmoved(net.Abs());
      GainedNone(net.trace);
      if si != SERVER && Member(net.sockets[si]) {
        var known := Known(si);
        if !known {
          RoomForEverySlot(clients[..], si);
          SendQuiet(net.kernel, net.Abs(), si, Ascii("\r\nnick: "), Tcp.ACK);
          var placed := Place(si);
          if !placed {
            // the "room full" branch
            assert false;
          }
        }
      }
    }

    method Known(s: nat) returns (known: bool)
      requires Shaped()
      ensures known <==> Some(s) in clients[..]
    {
      var j := 0;
      while j < MAX_CLIENTS
        invariant 0 <= j <= MAX_CLIENTS && Some(s) !in clients[..j]
      {
        if clients[j] == Some(s) {
          assert clients[..][j] == Some(s);
          return true;
        }
        assert clients[..j + 1] == clients[..j] + [clients[j]];
        j := j + 1;
      }
      assert clients[..] == clients[..j];
      return false;
    }

    static lemma Replaced(c: Clients, j: nat, v: Option<nat>)
      requires j < |c|
      ensures v in c[j := v] && forall x :: x in c && x != c[j] ==> x in c[j := v]
      ensures forall x :: x in c[j := v] && x != v ==> x in c
    {
      assert c[j := v][j] == v;
      forall x | x in c && x != c[j] ensures x in c[j := v] {
        var k :| 0 <= k < |c| && c[k] == x;
        assert c[j := v][k] == x;
      }
    }

    /** Take the first free entry for slot s and prompt for a nickname. */
    method Place(s: nat) returns (placed: bool)
      requires Shaped() && 1 <= s < Tcp.MAX_SOCKETS && Some(s) !in clients[..] && Member(net.sockets[s])
      modifies this, net, net.sockets, clients, nick_ready, nicks
      ensures Shaped() && SameConnections(net.sockets[..], old(net.sockets[..]))
      ensures placed <==> exists j :: 0 <= j < MAX_CLIENTS && old(clients[..])[j] == None
      ensures placed ==> exists j :: 0 <= j < MAX_CLIENTS && old(clients[j]) == None && clients[..] == old(clients[..])[j := Some(s)]
      ensures placed ==> Some(s) in clients[..] && forall x :: Some(x) in old(clients[..]) ==> Some(x) in clients[..]
      ensures forall x :: x != s && Some(x) in clients[..] ==> Some(x) in old(clients[..])
      ensures !placed ==> clients[..] == old(clients[..])
      ensures net.Abs() == if placed then Tcp.Send(net.kernel, old(net.Abs()), s, Ascii("\r\nnick: "), Tcp.ACK) else old(net.Abs())
      ensures forall j :: 0 <= j < MAX_CLIENTS && clients[j] == Some(s) ==> !nick_ready[j] && nicks[j][0] == 0
      ensures KeepsEntries(old(Table()), Table())
    {
      var j := 0;
      while j < MAX_CLIENTS
        invariant 0 <= j <= MAX_CLIENTS
        invariant forall k :: 0 <= k < j ==> clients[k].Some?
        invariant clients[..] == old(clients[..]) && nick_ready[..] == old(nick_ready[..]) && nicks[..] == old(nicks[..])
        invariant net.Abs() == old(net.Abs()) && num_clients == old(num_clients)
      {
        if clients[j].None? {
          Claim(j, s);
          net.Write(s, Ascii("\r\nnick: "));
          return true;
        }
        j := j + 1;
      }
      return false;
    }

    method Claim(j: nat, s: nat)
      requires Shaped() && j < MAX_CLIENTS && clients[j].None?
      requires 1 <= s < Tcp.MAX_SOCKETS && Some(s) !in clients[..]
      modifies this, clients, nick_ready, nicks
      ensures Shaped() && clients[..] == old(clients[..])[j := Some(s)]
      ensures !nick_ready[j] && nicks[j][0] == 0
      ensures Some(s) in clients[..] && forall x :: Some(x) in old(clients[..]) ==> Some(x) in clients[..]
      ensures forall x :: x != s && Some(x) in clients[..] ==> Some(x) in old(clients[..])
      ensures KeepsEntries(old(Table()), Table())
    {
      ghost var c := clients[..];
      clients[j] := Some(s);
      nick_ready[j] := false;
      nicks[j] := nicks[j][0 := 0];
      assert nicks[j][0] == 0;
      num_clients := num_clients + 1;
      CountUpdate(c, j, Some(s));
      assert clients[..] == c[j := Some(s)];
      Replaced(c, j, Some(s));
    }

    /** Read every connected peer: nickname entry until it is confirmed, room messages afterwards. */
    method ReadPeers() returns (ghost turns: seq<Turn>)
      requires Shaped()
      modifies net, net.sockets, nick_ready, nicks
      ensures Shaped() && SameConnections(net.sockets[..], old(net.sockets[..]))
      ensures KeepsReady(old(Table()), Table())
      ensures clients[..] == old(clients[..]) && ReadSome(old(net.Abs()), net.Abs(), clients[..], MAX_CLIENTS)
      ensures |turns| == MAX_CLIENTS
      ensures Turns(turns, old(net.sockets[..]), old(Table()), Table(), old(net.trace), net.trace)
    {
      hide Count, TurnOk;
      ghost var c, n := clients[..], net.Abs();
      NothingRead(net.Abs(), c);
      turns := [];
      assert Turns(turns, n.socks, Table(), Table(), n.trace, n.trace);
      hide ReadSome, ReadOne, Turns;
      var i := 0;
      while i < MAX_CLIENTS
        invariant 0 <= i <= MAX_CLIENTS
        invariant Shaped() && SameConnections(net.sockets[..], old(net.sockets[..]))
        invariant KeepsReady(old(Table()), Table()) && clients[..] == c
        invariant ReadSome(old(net.Abs()), net.Abs(), c, i)
        invariant |turns| == i && Turns(turns, n.socks, old(Table()), Table(), n.trace, net.trace)
      {
        ghost var before, d := net.Abs(), Table();
        ghost var t := ReadPeer(i);
        ReadNext(old(net.Abs()), before, net.Abs(), c, i);
        Unread(n, before, c, i);
        SameTurn(t, before.socks, n.socks, i);
        NextTurn(turns, t, n.socks, old(Table()), d, n.trace, before.trace);
        turns := turns + [t];
        i := i + 1;
      }
    }

    method ReadPeer(i: nat) returns (ghost t: Turn)
      requires Shaped() && i < MAX_CLIENTS
      modifies net, net.sockets, nick_ready, nicks
      ensures Shaped() && SameConnections(net.sockets[..], old(net.sockets[..]))
      ensures KeepsReady(old(Table()), Table())
      ensures ReadOne(old(net.Abs()), net.Abs(),
                if clients[i].Some? && old(net.sockets[..])[clients[i].value].state == Tcp.Established then clients[i] else None)
      ensures TurnOk(t, old(net.sockets[..]), i)
      ensures t.desk == old(Table()) && t.next == Table() && t.from == old(net.trace) && t.to == net.trace
    {
      hide Quiet, ReadOne, Count, Heard;
      ghost var n, d := net.Abs(), Table();
      ghost var got: seq<u8> := [];
      NoneRead(n);
      if clients[i].Some? && net.sockets[clients[i].value].state == Tcp.Established {
        ReadReads(n, clients[i].value);
        var rx := net.Read(clients[i].value, ROOM_READ);
        ghost var m := net.Abs();
        got := rx;
        Unmoved(m);
        if rx != [] {
          Hear(i, rx);
          HeardSame(d, Table(), m.socks, n.socks, i, rx, m.trace, net.trace);
        }
        ThenQuiet(n, m, net.Abs(), clients[i]);
      }
      t := Turn(got, d, Table(), n.trace, net.trace);
    }

    /** A segment's bytes are part of a nickname, or a message to the room. */
    method Hear(i: nat, rx: seq<u8>)
      requires Shaped() && i < MAX_CLIENTS && clients[i].Some? && |rx| <= 1460
      modifies net, net.sockets, nick_ready, nicks
      ensures Shaped() && SameConnections(net.sockets[..], old(net.sockets[..]))
      ensures KeepsReady(old(Table()), Table())
      ensures Quiet(old(net.Abs()), net.Abs())
      ensures Heard(old(Table()), Table(), old(net.sockets[..]), i, rx, old(net.trace), net.trace)
    {
      hide NickReplies, Welcomed, Multicast, Recipients, NickText, Appended, Typed, Count, Quiet, Gained, NickScript, Script;
      ghost var n, d := net.Abs(), Table();
      if !nick_ready[i] {
        EnterNick(i, rx);
        assert Table() == Desk(d.c, d.ready[i := nick_ready[i]], d.nicks[i := nicks[i]]);
        RepliesGained(net.kernel, n, clients[..], nick_ready[..], clients[i].value, rx, nick_ready[i], NickText(nicks[i]));
        RepliesQuiet(net.kernel, n, clients[..], nick_ready[..], clients[i].value, rx, nick_ready[i], NickText(nicks[i]));
      } else {
        ForwardGained(net.kernel, n, d, i, rx);
        ForwardMsg(clients[i], nicks[i], rx);
        MulticastQuiet(net.kernel, n, Recipients(clients[..], nick_ready[..], n.socks, clients[i], 0),
          [[0x5b] + NickText(nicks[i]) + [0x5d, 0x20], rx]);
      }
    }

    /** Collect nickname bytes; on end of line confirm it, welcome the member and tell the others. */
    method EnterNick(i: nat, rx: seq<u8>)
      requires Shaped() && i < MAX_CLIENTS && clients[i].Some? && !nick_ready[i]
      modifies net, net.sockets, nick_ready, nicks
      ensures Shaped() && SameConnections(net.sockets[..], old(net.sockets[..]))
      ensures forall j :: 0 <= j < MAX_CLIENTS && j != i ==> nick_ready[j] == old(nick_ready[j]) && nicks[j] == old(nicks[j])
      ensures nicks[i] == Appended(old(nicks[i]), |NickText(old(nicks[i]))|, Typed(rx))
      ensures nick_ready[i] <==> 0x0a in rx && NickText(old(nicks[i])) + Typed(rx) != []
      ensures net.Abs() == NickReplies(net.kernel, old(net.Abs()), clients[..], nick_ready[..], clients[i].value, rx,
                nick_ready[i], NickText(nicks[i]))
    {
      hide NickText, Welcomed, Typed, Appended, Count;
      var s := clients[i].value;
      var start := NickLen(nicks[i]);
      var nick', ni, eol := CollectNick(nicks[i], start, rx);
      nicks[i] := nick';
      if !eol {
        return;
      }
      if ni == 0 {
        net.Write(s, Ascii("nick cannot be empty\r\nnick: "));
        return;
      }
      nick_ready[i] := true;
      Welcome(i);
    }

    /** Welcome the new member, then announce the name to the other ready members. */
    method Welcome(i: nat)
      requires Wired() && i < MAX_CLIENTS && clients[i].Some? && NickOk(nicks[i])
      modifies net, net.sockets
      ensures Wired() && SameConnections(net.sockets[..], old(net.sockets[..]))
      ensures net.Abs() == Welcomed(net.kernel, old(net.Abs()), clients[..], nick_ready[..], clients[i].value, NickText(nicks[i]))
    {
      var len := NickLen(nicks[i]);
      var nick := nicks[i][..len];
      net.Write(clients[i].value, Ascii("[room] welcome, ") + nick + Ascii("!\r\n"));
      Broadcast(clients[i], Ascii("[room] ") + nick + Ascii(" joined\r\n"));
    }

    static method NickLen(nick: seq<u8>) returns (n: nat)
      requires NickOk(nick)
      ensures n < NICK_CAP && nick[n] == 0 && forall k :: 0 <= k < n ==> nick[k] != 0
      ensures nick[..n] == NickText(nick)
    {
      n := 0;
      while nick[n] != 0
        invariant 0 <= n < NICK_CAP && forall k :: 0 <= k < n ==> nick[k] != 0
        invariant exists k :: n <= k < NICK_CAP && nick[k] == 0
        decreases NICK_CAP - n
      {
        n := n + 1;
      }
      hide NickText;
      assert n == |NickText(nick)|;
    }

    /** The byte loop of nickname entry; n counts the characters held. */
    static method CollectNick(was: seq<u8>, start: nat, rx: seq<u8>) returns (nick: seq<u8>, n: nat, eol: bool)
      requires NickOk(was) && start < NICK_CAP && was[start] == 0
      ensures NickOk(nick) && nick == Appended(was, start, Typed(rx))
      ensures eol <==> 0x0a in rx
      ensures n == 0 <==> start == 0 && Typed(rx) == []
    {
      ghost var t: seq<u8> := [];
      nick, n, eol := was, start, false;
      var k := 0;
      while k < |rx| && !eol
        invariant 0 <= k <= |rx| && start <= n < NICK_CAP
        invariant n == if start + |t| < NICK_CAP then start + |t| else NICK_CAP - 1
        invariant |nick| == NICK_CAP && nick[n] == 0 && nick == Appended(was, start, t)
        invariant !eol ==> Typed(rx) == t + Typed(rx[k..]) && 0x0a !in rx[..k]
        invariant eol ==> Typed(rx) == t && 0x0a in rx
        decreases |rx| - k, !eol
      {
        var c := rx[k];
        TypedStep(rx, k, t);
        if c == 0x0a {
          eol := true;
        } else {
          if c != 0x0d {
            AppendOne(was, start, t, c, n);
            if n < NICK_CAP - 1 {
              nick := nick[n := c];
              n := n + 1;
              nick := nick[n := 0];
            }
            t := t + [c];
          }
          k := k + 1;
        }
      }
      if !eol {
        assert rx[..k] == rx && rx[k..] == [];
      }
      assert nick[n] == 0;
    }

    static lemma TypedStep(rx: seq<u8>, k: nat, t: seq<u8>)
      requires k < |rx|
      ensures rx[k] == 0x0a ==> Typed(rx[k..]) == [] && t + Typed(rx[k..]) == t && 0x0a in rx
      ensures rx[k] == 0x0d ==> Typed(rx[k..]) == Typed(rx[k + 1..])
      ensures rx[k] != 0x0a && rx[k] != 0x0d ==> t + Typed(rx[k..]) == t + [rx[k]] + Typed(rx[k + 1..])
      ensures rx[k] != 0x0a && 0x0a !in rx[..k] ==> 0x0a !in rx[..k + 1]
    {
      assert rx[k..][1..] == rx[k + 1..];
      assert rx[..k + 1] == rx[..k] + [rx[k]];
    }

    static lemma AppendOne(was: seq<u8>, start: nat, t: seq<u8>, c: u8, n: nat)
      requires |was| == NICK_CAP && start < NICK_CAP && was[start] == 0
      requires n == if start + |t| < NICK_CAP then start + |t| else NICK_CAP - 1
      ensures var nick := Appended(was, start, t);
              Appended(was, start, t + [c]) == if n < NICK_CAP - 1 then nick[n := c][n + 1 := 0] else nick
    {
      if start + |t| < NICK_CAP - 1 {
        assert (t + [c])[..|t|] == t;
      } else {
        assert (t + [c])[..NICK_CAP - 1 - start] == t[..NICK_CAP - 1 - start];
        assert |t| == NICK_CAP - 1 - start ==> t[..NICK_CAP - 1 - start] == t;
      }
    }

    /** broadcast: buf to every ready member except skip. */
    method Broadcast(skip: Option<nat>, buf: seq<u8>)
      requires Wired() && |buf| <= 1460
      modifies net, net.sockets
      ensures Wired() && SameConnections(net.sockets[..], old(net.sockets[..]))
      ensures net.Abs() == Multicast(net.kernel, old(net.Abs()),
                Recipients(clients[..], nick_ready[..], old(net.sockets[..]), skip, 0), [buf])
    {
      SendToRoom(skip, [buf]);
    }

    /** forward_msg: a "[nick] " header and then the payload to every ready member except the sender. */
    method ForwardMsg(sender: Option<nat>, nick: seq<u8>, payload: seq<u8>)
      requires Wired() && NickOk(nick) && |payload| <= 1460
      modifies net, net.sockets
      ensures Wired() && SameConnections(net.sockets[..], old(net.sockets[..]))
      ensures net.Abs() == Multicast(net.kernel, old(net.Abs()),
                Recipients(clients[..], nick_ready[..], old(net.sockets[..]), sender, 0),
                [[0x5b] + NickText(nick) + [0x5d, 0x20], payload])
    {
      var len := NickLen(nick);
      SendToRoom(sender, [[0x5b] + nick[..len] + [0x5d, 0x20], payload]);
    }

    /** The loop both of them run over the client table. */
    method SendToRoom(skip: Option<nat>, msgs: seq<seq<u8>>)
      requires Wired() && forall m :: m in msgs ==> |m| <= 1460
      requires msgs != []
      modifies net, net.sockets
      ensures Wired() && SameConnections(net.sockets[..], old(net.sockets[..]))
      ensures net.Abs() == Multicast(net.kernel, old(net.Abs()),
                Recipients(clients[..], nick_ready[..], old(net.sockets[..]), skip, 0), msgs)
    {
      hide Multicast, SendAll, Recipients, NickText;
      ghost var c, ready, socks := clients[..], nick_ready[..], net.sockets[..];
      ghost var goal := Multicast(net.kernel, net.Abs(), Recipients(c, ready, socks, skip, 0), msgs);
      var i := 0;
      while i < MAX_CLIENTS
        invariant 0 <= i <= MAX_CLIENTS
        invariant Wired() && SameConnections(net.sockets[..], socks)
        invariant goal == Multicast(net.kernel, net.Abs(), Recipients(c, ready, socks, skip, i), msgs)
      {
        ghost var before := net.Abs();
        var sent := SendToEntry(i, skip, msgs);
        MulticastStep(net.kernel, before, net.Abs(), c, ready, socks, skip, i, sent, msgs);
        i := i + 1;
      }
      NoneLeft(net.kernel, net.Abs(), c, ready, socks, skip, msgs);
    }

    method SendToEntry(i: nat, skip: Option<nat>, msgs: seq<seq<u8>>) returns (sent: bool)
      requires Wired() && i < MAX_CLIENTS && forall m :: m in msgs ==> |m| <= 1460
      modifies net, net.sockets
      ensures Wired() && SameConnections(net.sockets[..], old(net.sockets[..]))
      ensures sent <==> clients[i].Some? && clients[i] != skip && nick_ready[i]
                        && old(net.sockets[clients[i].value].state) == Tcp.Established
      ensures net.Abs() == if sent then SendAll(net.kernel, old(net.Abs()), clients[i].value, msgs) else old(net.Abs())
    {
      sent := clients[i].Some? && clients[i] != skip && nick_ready[i]
              && net.sockets[clients[i].value].state == Tcp.Established;
      if sent {
        SendMessages(clients[i].value, msgs);
      }
    }

    method SendMessages(s: nat, msgs: seq<seq<u8>>)
      requires Wired() && s < Tcp.MAX_SOCKETS && forall m :: m in msgs ==> |m| <= 1460
      modifies net, net.sockets
      ensures Wired() && SameConnections(net.sockets[..], old(net.sockets[..]))
      ensures net.Abs() == SendAll(net.kernel, old(net.Abs()), s, msgs)
    {
      var k := 0;
      while k < |msgs|
        invariant 0 <= k <= |msgs|
        invariant Wired() && SameConnections(net.sockets[..], old(net.sockets[..]))
        invariant SendAll(net.kernel, old(net.Abs()), s, msgs) == SendAll(net.kernel, net.Abs(), s, msgs[k..])
      {
        assert msgs[k] in msgs && msgs[k..][1..] == msgs[k + 1..];
        net.Write(s, msgs[k]);
        k := k + 1;
      }
    }

    /** Drop the entries whose connection is gone and tell the room about confirmed members. */
    method Detect()
      requires Shaped() && Entered(net.sockets[..], clients[..], Tcp.MAX_SOCKETS)
      modifies this, net, net.sockets, clients, nick_ready, nicks
      ensures Coupled() && SameConnections(net.sockets[..], old(net.sockets[..]))
      ensures KeepsLive(old(Table()), Table(), net.sockets[..])
      ensures Quiet(old(net.Abs()), net.Abs())
      ensures ReadyFor(old(clients[..]), old(nick_ready[..]), old(net.sockets[..]))
      ensures Gained(old(net.trace), net.trace, Farewells(old(Table()), old(net.sockets[..]), 0))
    {
      hide Count, Quiet, Gained, Farewell, Farewells, Dropped, Gone;
      ghost var d, socks := Table(), net.sockets[..];
      ghost var said: seq<(nat, seq<u8>)> := [];
      Unmoved(net.Abs());
      GainedNone(net.trace);
      assert said + Farewells(d, socks, 0) == Farewells(d, socks, 0);
      var i := 0;
      while i < MAX_CLIENTS
        invariant 0 <= i <= MAX_CLIENTS
        invariant Shaped() && SameConnections(net.sockets[..], old(net.sockets[..]))
        invariant Entered(net.sockets[..], clients[..], Tcp.MAX_SOCKETS) && Live(net.sockets[..], clients[..], i)
        invariant KeepsLive(old(Table()), Table(), net.sockets[..])
        invariant Quiet(old(net.Abs()), net.Abs())
        invariant Gained(old(net.trace), net.trace, said) && ReadyFor(clients[..], nick_ready[..], socks)
        invariant Farewells(d, socks, 0) == said + Farewells(Table(), socks, i)
      {
        ghost var before, e := net.Abs(), Table();
        DetectEntry(i);
        QuietTwice(old(net.Abs()), before, net.Abs());
        FarewellSame(e, socks, before.socks, i);
        FarewellsNext(e, socks, i);
        GainedTwice(old(net.trace), before.trace, net.trace, said, Farewell(e, socks, i));
        said := said + Farewell(e, socks, i);
        i := i + 1;
      }
      FarewellsEnd(Table(), socks);
      assert said + [] == said;
    }

    method DetectEntry(i: nat)
      requires Shaped() && i < MAX_CLIENTS && Entered(net.sockets[..], clients[..], Tcp.MAX_SOCKETS)
      modifies this, net, net.sockets, clients, nick_ready, nicks
      ensures Shaped() && SameConnections(net.sockets[..], old(net.sockets[..]))
      ensures Entered(net.sockets[..], clients[..], Tcp.MAX_SOCKETS)
      ensures clients[i].Some? ==> net.sockets[clients[i].value].used
      ensures forall j :: 0 <= j < MAX_CLIENTS && (j != i || clients[j].Some?) ==> Table().SameAt(old(Table()), j)
      ensures clients[i].None? && old(clients[i]).Some? ==> !net.sockets[old(clients[i]).value].used
      ensures Quiet(old(net.Abs()), net.Abs())
      ensures ReadyFor(old(clients[..]), old(nick_ready[..]), old(net.sockets[..]))
      ensures Table() == if Gone(old(Table()), old(net.sockets[..]), i) then Dropped(old(Table()), i) else old(Table())
      ensures Gained(old(net.trace), net.trace, Farewell(old(Table()), old(net.sockets[..]), i))
    {
      hide Count, Quiet;
      Unmoved(net.Abs());
      GainedNone(net.trace);
      if clients[i].Some? && !(net.sockets[clients[i].value].used && net.sockets[clients[i].value].state != Tcp.Closed) {
        Drop(i);
      }
    }

    method Drop(i: nat)
      requires Shaped() && i < MAX_CLIENTS && clients[i].Some?
      modifies this, net, net.sockets, clients, nick_ready, nicks
      ensures Shaped() && SameConnections(net.sockets[..], old(net.sockets[..]))
      ensures clients[..] == old(clients[..])[i := None] && !nick_ready[i] && nicks[i][0] == 0
      ensures net.Abs() == if old(nick_ready[i]) then Multicast(net.kernel, old(net.Abs()),
                Recipients(clients[..], nick_ready[..], old(net.sockets[..]), None, 0),
                [Ascii("[room] ") + NickText(old(nicks[i])) + Ascii(" left\r\n")]) else old(net.Abs())
      ensures forall x :: x in old(clients[..]) && x != old(clients[i]) ==> x in clients[..]
      ensures forall j :: 0 <= j < MAX_CLIENTS && j != i ==> nick_ready[j] == old(nick_ready[j]) && nicks[j] == old(nicks[j])
      ensures Quiet(old(net.Abs()), net.Abs())
      ensures Table() == Dropped(old(Table()), i)
      ensures Gained(old(net.trace), net.trace, if old(nick_ready[i]) then
                Script(Recipients(clients[..], nick_ready[..], old(net.sockets[..]), None, 0),
                       [Ascii("[room] ") + NickText(old(nicks[i])) + Ascii(" left\r\n")]) else [])
    {
      hide NickText, Recipients, Multicast, Count, Quiet, Gained, Script;
      GainedNone(net.trace);
      ghost var c := clients[..];
      var was_ready := nick_ready[i];
      var k2 := NickLen(nicks[i]);
      var saved_nick := nicks[i][..k2];
      CountUpdate(c, i, None);
      num_clients := num_clients - 1;
      clients[i] := None;
      nick_ready[i] := false;
      nicks[i] := nicks[i][0 := 0];
      assert nicks[i][0] == 0;
      assert clients[..] == c[i := None];
      Replaced(c, i, None);
      ghost var n := net.Abs();
      Unmoved(n);
      if was_ready {
        Broadcast(None, Ascii("[room] ") + saved_nick + Ascii(" left\r\n"));
        MulticastQuiet(net.kernel, n, Recipients(clients[..], nick_ready[..], n.socks, None, 0),
          [Ascii("[room] ") + saved_nick + Ascii(" left\r\n")]);
        MulticastObserved(net.kernel, n, Recipients(clients[..], nick_ready[..], n.socks, None, 0),
          [Ascii("[room] ") + saved_nick + Ascii(" left\r\n")]);
      }
    }

    /** A line typed at the server: two broadcasts. */
    method Say(line: seq<u8>)
      requires Coupled() && |line| <= 128
      modifies net, net.sockets
      ensures Coupled() && SameConnections(net.sockets[..], old(net.sockets[..]))
      ensures var to := Recipients(clients[..], nick_ready[..], old(net.sockets[..]), None, 0);
              net.Abs() == Multicast(net.kernel, Multicast(net.kernel, old(net.Abs()), to, [Ascii("[server] ")]), to, [line])
    {
      Broadcast(None, Ascii("[server] "));
      RecipientsSame(clients[..], nick_ready[..], old(net.sockets[..]), net.sockets[..], None, 0);
      Broadcast(None, line);
    }
  }
}
