/** The SLIP receiver of net.c: the whole buffer is decoded again after every byte (protocol of RFC 1055). */
module Slip {
  import opened Bytes

  const SLIP_END: u8 := 0xC0
  const SLIP_ESC: u8 := 0xDB
  const SLIP_ESC_END: u8 := 0xDC
  const SLIP_ESC_ESC: u8 := 0xDD
  const BUF_SIZE: nat := 2048

  // ---- the decoder as an automaton ------------------------------------------

  /** Decoder state between bytes. */
  datatype State = State(out: seq<u8>, escape: bool)

  datatype Verdict = More(state: State) | Frame(bytes: seq<u8>) | Bad

  const START := State([], false)

  /** One byte. An END before any data is skipped; the escape flag survives it. */
  function StepByte(s: State, b: u8, cap: nat): Verdict {
    if b == SLIP_END then
      if |s.out| > 0 then Frame(s.out) else More(s)
    else if b == SLIP_ESC then More(State(s.out, true))
    else if s.escape && b != SLIP_ESC_END && b != SLIP_ESC_ESC then Bad
    else if |s.out| >= cap then Bad
    else More(State(s.out + [if !s.escape then b else if b == SLIP_ESC_END then SLIP_END else SLIP_ESC], false))
  }

  /** The verdict on a buffer: the first byte that ends a frame or breaks the protocol decides. */
  function Decode(input: seq<u8>, s: State, cap: nat): Verdict {
    if input == [] then More(s)
    else
      var v := StepByte(s, input[0], cap);
      if v.More? then Decode(input[1..], v.state, cap) else v
  }

  /** Appending bytes never changes a decided verdict, and an undecided one resumes where it stopped. */
  lemma {:induction false} DecodeAppend(p: seq<u8>, q: seq<u8>, s: State, cap: nat)
    ensures Decode(p + q, s, cap) ==
      match Decode(p, s, cap) case More(t) => Decode(q, t, cap) case v => v
  {
    if p == [] {
      assert p + q == q;
    } else {
      assert (p + q)[1..] == p[1..] + q;
      var v := StepByte(s, p[0], cap);
      if v.More? {
        DecodeAppend(p[1..], q, v.state, cap);
      }
    }
  }

  // ---- one call of slip_recv ------------------------------------------------

  /** What a call with the received byte v leaves in the buffer, and what it returns. */
  function Recv(temp: seq<u8>, v: u8, maxlen: nat): (seq<u8>, seq<u8>)
    requires |temp| <= BUF_SIZE
  {
    var t := if |temp| < BUF_SIZE then temp + [v] else temp;
    match Decode(t, START, BUF_SIZE)
    case More(_) => (t, [])
    case Frame(f) => ([], if |f| <= maxlen then f else f[..maxlen])
    case Bad => ([], [])
  }

  /** An undecided buffer. */
  ghost predicate Open(temp: seq<u8>) {
    |temp| <= BUF_SIZE && Decode(temp, START, BUF_SIZE).More?
  }

  /** Decoding everything again equals one step of the automaton from where the previous call stopped. */
  lemma RecvIsStep(temp: seq<u8>, v: u8, maxlen: nat)
    requires Open(temp) && |temp| < BUF_SIZE
    ensures var s := Decode(temp, START, BUF_SIZE).state;
            match StepByte(s, v, BUF_SIZE)
            case More(t) => Recv(temp, v, maxlen) == (temp + [v], []) && Decode(temp + [v], START, BUF_SIZE) == More(t)
            case Frame(f) => Recv(temp, v, maxlen) == ([], if |f| <= maxlen then f else f[..maxlen])
            case Bad => Recv(temp, v, maxlen) == ([], [])
  {
    DecodeAppend(temp, [v], START, BUF_SIZE);
    var s := Decode(temp, START, BUF_SIZE).state;
    var w := StepByte(s, v, BUF_SIZE);
    if w.More? {
      assert [v][1..] == [];
      assert Decode([], w.state, BUF_SIZE) == More(w.state);
    }
  }

  /** Feeding bytes one per call: the buffer at the end and the result of every call. */
  function Feed(temp: seq<u8>, bytes: seq<u8>, maxlen: nat): (r: (seq<u8>, seq<seq<u8>>))
    requires |temp| <= BUF_SIZE
    ensures |r.0| <= BUF_SIZE && |r.1| == |bytes|
    decreases |bytes|
  {
    if bytes == [] then (temp, [])
    else
      var (t, out) := Recv(temp, bytes[0], maxlen);
      var (u, outs) := Feed(t, bytes[1..], maxlen);
      (u, [out] + outs)
  }

  lemma {:induction false} FeedAppend(temp: seq<u8>, p: seq<u8>, q: seq<u8>, maxlen: nat)
    requires |temp| <= BUF_SIZE
    ensures var (t, a) := Feed(temp, p, maxlen);
            var (u, b) := Feed(t, q, maxlen);
            Feed(temp, p + q, maxlen) == (u, a + b)
    decreases |p|
  {
    if p == [] {
      assert p + q == q;
      var (u, b) := Feed(temp, q, maxlen);
      assert [] + b == b;
    } else {
      assert (p + q)[1..] == p[1..] + q;
      var (t, out) := Recv(temp, p[0], maxlen);
      FeedAppend(t, p[1..], q, maxlen);
      var (u, a) := Feed(t, p[1..], maxlen);
      var b := Feed(u, q, maxlen).1;
      assert [out] + (a + b) == ([out] + a) + b;
    }
  }

  // ---- the sender's side -----------------------------------------------------

  function Stuff(payload: seq<u8>): seq<u8> {
    if payload == [] then []
    else (if payload[0] == SLIP_END then [SLIP_ESC, SLIP_ESC_END]
          else if payload[0] == SLIP_ESC then [SLIP_ESC, SLIP_ESC_ESC]
          else [payload[0]]) + Stuff(payload[1..])
  }

  /** A packet as a sender may put it on the line: any number of ENDs, the stuffed payload, END. */
  datatype Msg = Msg(lead: nat, payload: seq<u8>)
  {
    function Encode(): (r: seq<u8>)
      ensures |r| == lead + |Stuff(payload)| + 1
    {
      seq(lead, i => SLIP_END) + Stuff(payload) + [SLIP_END]
    }
  }

  lemma {:induction false} LeadingEnds(k: nat, cap: nat)
    ensures Decode(seq(k, i => SLIP_END), START, cap) == More(START)
  {
    if k > 0 {
      assert seq(k, i => SLIP_END)[1..] == seq(k - 1, i => SLIP_END);
      LeadingEnds(k - 1, cap);
    }
  }

  /** Decoding a stuffed payload collects exactly the payload. */
  lemma {:induction false} DecodeStuffed(payload: seq<u8>, out: seq<u8>, cap: nat)
    requires |out| + |payload| <= cap
    ensures Decode(Stuff(payload), State(out, false), cap) == More(State(out + payload, false))
    decreases |payload|
  {
    if payload == [] {
      assert out + payload == out;
    } else {
      var c, rest := payload[0], payload[1..];
      var next := State(out + [c], false);
      DecodeStuffed(rest, out + [c], cap);
      assert out + [c] + rest == out + payload;
      if c == SLIP_END || c == SLIP_ESC {
        var e := if c == SLIP_END then SLIP_ESC_END else SLIP_ESC_ESC;
        assert Stuff(payload) == [SLIP_ESC, e] + Stuff(rest);
        assert ([SLIP_ESC, e] + Stuff(rest))[1..] == [e] + Stuff(rest);
        assert ([e] + Stuff(rest))[1..] == Stuff(rest);
        assert StepByte(State(out, false), SLIP_ESC, cap) == More(State(out, true));
        assert StepByte(State(out, true), e, cap) == More(next);
        assert Decode([e] + Stuff(rest), State(out, true), cap) == Decode(Stuff(rest), next, cap);
      } else {
        assert ([c] + Stuff(rest))[1..] == Stuff(rest);
        assert StepByte(State(out, false), c, cap) == More(next);
      }
    }
  }

  lemma {:induction false} StuffGrows(payload: seq<u8>)
    ensures |Stuff(payload)| >= |payload|
  {
    if payload != [] {
      StuffGrows(payload[1..]);
    }
  }

  /** The two escapes of RFC 1055: DB DC stands for C0 and DB DD for DB; every other byte but C0 and DB for itself. */
  lemma Escapes(out: seq<u8>, b: u8, cap: nat)
    requires |out| < cap
    ensures Decode([0xDB, 0xDC], State(out, false), cap) == More(State(out + [0xC0], false))
    ensures Decode([0xDB, 0xDD], State(out, false), cap) == More(State(out + [0xDB], false))
    ensures b != 0xC0 && b != 0xDB ==> Decode([b], State(out, false), cap) == More(State(out + [b], false))
    ensures b != 0xC0 && b != 0xDB && b != 0xDC && b != 0xDD ==> Decode([0xDB, b], State(out, false), cap) == Bad
    ensures out != [] ==> Decode([0xC0], State(out, false), cap) == Frame(out)
  {
    assert forall x: u8, y: u8 :: [x, y][1..] == [y] && [y][1..] == [];
    var e := More(State(out, true));
    assert StepByte(State(out, false), 0xDB, cap) == e;
    assert Decode([0xDC], e.state, cap) == More(State(out + [0xC0], false));
    assert Decode([0xDD], e.state, cap) == More(State(out + [0xDB], false));
  }

  /** Before its closing END a message leaves the decoder with exactly its payload. */
  lemma BodyDecodes(m: Msg, cap: nat)
    requires |m.payload| <= cap
    ensures Decode(seq(m.lead, i => SLIP_END) + Stuff(m.payload), START, cap) == More(State(m.payload, false))
  {
    LeadingEnds(m.lead, cap);
    DecodeAppend(seq(m.lead, i => SLIP_END), Stuff(m.payload), START, cap);
    DecodeStuffed(m.payload, [], cap);
    assert [] + m.payload == m.payload;
  }

  // ---- delivery ----------------------------------------------------------------

  function Silence(n: nat): seq<seq<u8>> {
    seq(n, i => [])
  }

  /** Bytes that keep the buffer open produce nothing and pile up in it. */
  lemma {:induction false} FeedOpen(temp: seq<u8>, bytes: seq<u8>, maxlen: nat)
    requires Open(temp + bytes)
    ensures Feed(temp, bytes, maxlen) == (temp + bytes, Silence(|bytes|))
    decreases |bytes|
  {
    if bytes == [] {
      assert temp + bytes == temp;
      assert Silence(0) == [];
    } else {
      var v := bytes[0];
      assert temp + bytes == (temp + [v]) + bytes[1..];
      DecodeAppend(temp + [v], bytes[1..], START, BUF_SIZE);
      FeedOpen(temp + [v], bytes[1..], maxlen);
      assert [[]] + Silence(|bytes| - 1) == Silence(|bytes|);
    }
  }

  /** The results one message is expected to give: nothing until its last byte, then its payload. */
  function Expected(m: Msg, maxlen: nat): seq<seq<u8>> {
    Silence(|m.Encode()| - 1) + [if |m.payload| <= maxlen then m.payload else m.payload[..maxlen]]
  }

  lemma DeliverOne(m: Msg, maxlen: nat)
    requires m.payload != [] && |m.Encode()| <= BUF_SIZE
    ensures Feed([], m.Encode(), maxlen) == ([], Expected(m, maxlen))
  {
    var body := seq(m.lead, i => SLIP_END) + Stuff(m.payload);
    StuffGrows(m.payload);
    BodyDecodes(m, BUF_SIZE);
    assert [] + body == body;
    FeedOpen([], body, maxlen);
    FeedAppend([], body, [SLIP_END], maxlen);
    RecvIsStep(body, SLIP_END, maxlen);
    assert [SLIP_END][1..] == [];
    var out := if |m.payload| <= maxlen then m.payload else m.payload[..maxlen];
    assert Feed(body, [SLIP_END], maxlen) == ([], [out] + []);
    assert [out] + [] == [out];
  }

  /** A full buffer that never saw the END of its frame: every later call returns nothing. */
  lemma {:induction false} StuckForever(temp: seq<u8>, bytes: seq<u8>, maxlen: nat)
    requires Open(temp) && |temp| == BUF_SIZE
    ensures Feed(temp, bytes, maxlen) == (temp, Silence(|bytes|))
    decreases |bytes|
  {
    if bytes == [] {
      assert Silence(0) == [];
    } else {
      StuckForever(temp, bytes[1..], maxlen);
      assert [[]] + Silence(|bytes| - 1) == Silence(|bytes|);
    }
  }

  /** A capacity that is never reached does not matter. */
  lemma {:induction false} CapacityUnused(p: seq<u8>, s: State, c: nat, d: nat)
    requires |s.out| + |p| <= c && |s.out| + |p| <= d
    ensures Decode(p, s, c) == Decode(p, s, d)
  {
    if p != [] {
      var v := StepByte(s, p[0], c);
      if v.More? {
        CapacityUnused(p[1..], v.state, c, d);
      }
    }
  }

  /** The exact frame bound: a non-empty payload arrives if and only if its encoding, leading ENDs included, fits the
      receive buffer. */
  lemma FrameBoundExact(m: Msg, maxlen: nat)
    requires m.payload != [] && maxlen > 0
    ensures Feed([], m.Encode(), maxlen) == ([], Expected(m, maxlen)) <==> |m.Encode()| <= 2048
  {
    if |m.Encode()| <= BUF_SIZE {
      DeliverOne(m, maxlen);
    } else {
      var body := seq(m.lead, i => SLIP_END) + Stuff(m.payload);
      var head, rest := m.Encode()[..BUF_SIZE], m.Encode()[BUF_SIZE..];
      var roomy := |m.payload| + BUF_SIZE;
      BodyDecodes(m, roomy);
      assert body == head + body[BUF_SIZE..];
      DecodeAppend(head, body[BUF_SIZE..], START, roomy);
      CapacityUnused(head, START, roomy, BUF_SIZE);
      assert [] + head == head;
      FeedOpen([], head, maxlen);
      StuckForever(head, rest, maxlen);
      FeedAppend([], head, rest, maxlen);
      assert head + rest == m.Encode();
    }
  }

  function EncodeAll(ms: seq<Msg>): seq<u8> {
    if ms == [] then [] else ms[0].Encode() + EncodeAll(ms[1..])
  }

  function ExpectedAll(ms: seq<Msg>, maxlen: nat): seq<seq<u8>> {
    if ms == [] then [] else Expected(ms[0], maxlen) + ExpectedAll(ms[1..], maxlen)
  }

  /** Stream delivery: any list of messages whose frames fit the buffer comes out payload by payload, in order,
      each on the call that receives its closing END, with nothing in between. */
  lemma {:induction false} StreamDelivery(ms: seq<Msg>, maxlen: nat)
    requires forall k :: 0 <= k < |ms| ==> ms[k].payload != [] && |ms[k].Encode()| <= BUF_SIZE
    ensures Feed([], EncodeAll(ms), maxlen) == ([], ExpectedAll(ms, maxlen))
    decreases |ms|
  {
    if ms != [] {
      DeliverOne(ms[0], maxlen);
      StreamDelivery(ms[1..], maxlen);
      FeedAppend([], ms[0].Encode(), EncodeAll(ms[1..]), maxlen);
    }
  }

  function NonEmpty(outs: seq<seq<u8>>): seq<seq<u8>> {
    if outs == [] then [] else (if outs[0] == [] then [] else [outs[0]]) + NonEmpty(outs[1..])
  }

  function Payloads(ms: seq<Msg>): seq<seq<u8>> {
    if ms == [] then [] else [ms[0].payload] + Payloads(ms[1..])
  }

  lemma {:induction false} NonEmptyAppend(a: seq<seq<u8>>, b: seq<seq<u8>>)
    ensures NonEmpty(a + b) == NonEmpty(a) + NonEmpty(b)
  {
    if a == [] {
      assert a + b == b;
    } else {
      assert (a + b)[1..] == a[1..] + b;
      NonEmptyAppend(a[1..], b);
    }
  }

  lemma {:induction false} SilenceIsEmpty(n: nat)
    ensures NonEmpty(Silence(n)) == []
  {
    if n > 0 {
      assert Silence(n)[1..] == Silence(n - 1);
      SilenceIsEmpty(n - 1);
    }
  }

  lemma ExpectedPayload(m: Msg, maxlen: nat)
    requires m.payload != [] && |m.payload| <= maxlen
    ensures NonEmpty(Expected(m, maxlen)) == [m.payload]
  {
    var n := |m.Encode()| - 1;
    NonEmptyAppend(Silence(n), [m.payload]);
    SilenceIsEmpty(n);
    assert [m.payload][1..] == [];
    assert NonEmpty([m.payload]) == [m.payload] + NonEmpty([]);
  }

  lemma {:induction false} ExpectedPayloads(ms: seq<Msg>, maxlen: nat)
    requires forall k :: 0 <= k < |ms| ==> ms[k].payload != [] && |ms[k].payload| <= maxlen
    ensures NonEmpty(ExpectedAll(ms, maxlen)) == Payloads(ms)
  {
    if ms != [] {
      ExpectedPayload(ms[0], maxlen);
      ExpectedPayloads(ms[1..], maxlen);
      NonEmptyAppend(Expected(ms[0], maxlen), ExpectedAll(ms[1..], maxlen));
    }
  }

  /** What the caller collects from the non-zero results is the list of payloads. */
  lemma PayloadsInOrder(ms: seq<Msg>, maxlen: nat)
    requires forall k :: 0 <= k < |ms| ==> ms[k].payload != [] && |ms[k].Encode()| <= BUF_SIZE && |ms[k].payload| <= maxlen
    ensures NonEmpty(Feed([], EncodeAll(ms), maxlen).1) == Payloads(ms)
  {
    StreamDelivery(ms, maxlen);
    ExpectedPayloads(ms, maxlen);
  }

  // ---- the code ------------------------------------------------------------------

  /** decode_slip: bytes decoded so far, -1 on error, 0 while the frame is incomplete. */
  method DecodeSlip(input: array<u8>, input_len: nat, output: array<u8>, output_len: nat) returns (r: int)
    requires input_len <= input.Length && output_len <= output.Length && input != output
    modifies output
    ensures match Decode(input[..input_len], START, output_len)
            case More(_) => r == 0
            case Frame(f) => r == |f| > 0 && r <= output_len && output[..r] == f
            case Bad => r == -1
  {
    ghost var all := input[..input_len];
    var out_pos, escape := 0, false;
    var i := 0;
    while i < input_len
      invariant 0 <= i <= input_len && 0 <= out_pos <= output_len && input[..input_len] == all
      invariant Decode(all, START, output_len) == Decode(all[i..], State(output[..out_pos], escape), output_len)
    {
      var b := input[i];
      assert all[i..][0] == b && all[i..][1..] == all[i + 1..];
      i := i + 1;
      if b == SLIP_END {
        if out_pos > 0 {
          return out_pos;
        }
        continue;
      }
      if b == SLIP_ESC {
        escape := true;
        continue;
      }
      if escape {
        if b == SLIP_ESC_END {
          b := SLIP_END;
        } else if b == SLIP_ESC_ESC {
          b := SLIP_ESC;
        } else {
          return -1;
        }
        escape := false;
      }
      if out_pos >= output_len {
        return -1;
      }
      ghost var done := output[..out_pos];
      output[out_pos] := b;
      out_pos := out_pos + 1;
      assert output[..out_pos] == done + [b];
    }
    r := 0;
  }

  class Receiver {
    const slip_temp_buf: array<u8>
    const slip_frame_buf: array<u8>
    var slip_temp_len: nat

    ghost predicate Valid()
      reads this
    {
      slip_temp_buf.Length == BUF_SIZE && slip_frame_buf.Length == BUF_SIZE && slip_temp_buf != slip_frame_buf
      && slip_temp_len <= BUF_SIZE
    }

    ghost function Temp(): seq<u8>
      requires Valid()
      reads this, slip_temp_buf
    {
      slip_temp_buf[..slip_temp_len]
    }

    constructor ()
      ensures Valid() && Temp() == [] && fresh(slip_temp_buf) && fresh(slip_frame_buf)
    {
      slip_temp_buf := new u8[BUF_SIZE];
      slip_frame_buf := new u8[BUF_SIZE];
      slip_temp_len := 0;
    }

    /** slip_recv: value is the byte serial_read delivered, if any. */
    method SlipRecv(value: Option<u8>, buf: array<u8>, maxlen: nat) returns (n: nat)
      requires Valid() && maxlen <= buf.Length && buf != slip_temp_buf && buf != slip_frame_buf
      modifies this, slip_temp_buf, slip_frame_buf, buf
      ensures Valid() && n <= maxlen
      ensures value.None? ==> n == 0 && Temp() == old(Temp())
      ensures value.Some? ==> (Temp(), buf[..n]) == Recv(old(Temp()), value.value, maxlen)
    {
      if value.None? {
        return 0;
      }
      ghost var temp := Temp();
      if slip_temp_len < BUF_SIZE {
        slip_temp_buf[slip_temp_len] := value.value;
        slip_temp_len := slip_temp_len + 1;
      }
      assert Temp() == if |temp| < BUF_SIZE then temp + [value.value] else temp;
      var decoded := DecodeSlip(slip_temp_buf, slip_temp_len, slip_frame_buf, BUF_SIZE);
      ghost var frame := slip_frame_buf[..];
      n := 0;
      if decoded > 0 {
        slip_temp_len := 0;
        n := if decoded < maxlen then decoded else maxlen;
        var i := 0;
        while i < n
          invariant 0 <= i <= n && Valid() && slip_temp_len == 0
          invariant slip_frame_buf[..] == frame && buf[..i] == frame[..i]
        {
          buf[i] := slip_frame_buf[i];
          i := i + 1;
        }
        assert frame[..n] == frame[..decoded][..n];
      } else if decoded < 0 {
        slip_temp_len := 0;
      }
      assert buf[..0] == [] && slip_temp_buf[..0] == [];
    }
  }
}
