/** From send_tcp_packet to the Ethernet frame: byte order, addresses and checksums of a transmitted segment. */
module Transmit {
  import opened Bytes
  import opened Checksum
  import Tcp

  const PROTO_TCP: u8 := 6
  const IP_HDR: nat := 20
  const TCP_HDR: nat := 20

  datatype TcpHeader = TcpHeader(source_port: u16, dest_port: u16, seq_num: u32, ack_num: u32,
                                 data_offset_reserved_flags: u16, window_size: u16, checksum: u16, urgent_pointer: u16)

  // ---- byte order -------------------------------------------------------

  function Lo(x: u16): u8 { x % 0x100 }

  function Hi(x: u16): u8 { x / 0x100 }

  /** A 32-bit value from its bytes, most significant first. */
  function Word(a: u8, b: u8, c: u8, d: u8): u32 {
    0x100 * (0x100 * (0x100 * (a as int) + b) + c) + d
  }

  /** The bytes of a 32-bit value as a little-endian machine stores it. */
  function Le32(x: u32): (s: seq<u8>)
    ensures |s| == 4
  {
    var y := x / 0x100;
    var z := y / 0x100;
    [x % 0x100, y % 0x100, z % 0x100, z / 0x100]
  }

  /** Loads of a little-endian machine. */
  function Load16(a: u8, b: u8): u16 { Be16(b, a) }

  function Load32(a: u8, b: u8, c: u8, d: u8): u32 { Word(d, c, b, a) }

  /** __builtin_bswap16, and htons on a 16-bit argument. */
  function Swap16(x: u16): u16 { Be16(Lo(x), Hi(x)) }

  /** __builtin_bswap32: the bytes in the opposite order. */
  function Swap32(x: u32): u32 {
    var s := Le32(x);
    Word(s[0], s[1], s[2], s[3])
  }

  lemma Split(q: nat, r: u8)
    ensures (0x100 * q + r) / 0x100 == q && (0x100 * q + r) % 0x100 == r
  {
  }

  lemma Swap16Bytes(a: u8, b: u8)
    ensures Swap16(Load16(a, b)) == Be16(a, b)
  {
    Split(b, a);
  }

  lemma Swap32Bytes(a: u8, b: u8, c: u8, d: u8)
    ensures Swap32(Load32(a, b, c, d)) == Word(a, b, c, d)
  {
    Split(0x100 * (0x100 * (d as int) + c) + b, a);
    Split(0x100 * (d as int) + c, b);
    Split(d, c);
  }

  /** The header as the little-endian host stores the struct. */
  function HostBytes(h: TcpHeader): (s: seq<u8>)
    ensures |s| == TCP_HDR
  {
    var q, a := Le32(h.seq_num), Le32(h.ack_num);
    [Lo(h.source_port), Hi(h.source_port), Lo(h.dest_port), Hi(h.dest_port),
     q[0], q[1], q[2], q[3], a[0], a[1], a[2], a[3],
     Lo(h.data_offset_reserved_flags), Hi(h.data_offset_reserved_flags), Lo(h.window_size), Hi(h.window_size),
     Lo(h.checksum), Hi(h.checksum), Lo(h.urgent_pointer), Hi(h.urgent_pointer)]
  }

  /** The header in network order (section 3.1 of RFC 9293), its checksum field still as stored. */
  function WireBytes(h: TcpHeader): (s: seq<u8>)
    ensures |s| == TCP_HDR
  {
    var q, a := Le32(h.seq_num), Le32(h.ack_num);
    [Hi(h.source_port), Lo(h.source_port), Hi(h.dest_port), Lo(h.dest_port),
     q[3], q[2], q[1], q[0], a[3], a[2], a[1], a[0],
     Hi(h.data_offset_reserved_flags), Lo(h.data_offset_reserved_flags), Hi(h.window_size), Lo(h.window_size),
     Lo(h.checksum), Hi(h.checksum), Hi(h.urgent_pointer), Lo(h.urgent_pointer)]
  }

  /** parse_tcp_packet: load the struct, then swap five of its fields. */
  function ParseTcp(s: seq<u8>): TcpHeader
    requires |s| >= TCP_HDR
  {
    TcpHeader(Swap16(Load16(s[0], s[1])), Swap16(Load16(s[2], s[3])),
              Swap32(Load32(s[4], s[5], s[6], s[7])), Swap32(Load32(s[8], s[9], s[10], s[11])),
              Swap16(Load16(s[12], s[13])), Load16(s[14], s[15]), Load16(s[16], s[17]), Load16(s[18], s[19]))
  }

  // ---- what eth_drv_send makes of an IP packet ---------------------------

  function HdrLen(p: seq<u8>): nat
    requires |p| >= IP_HDR
  {
    p[0] % 0x10 * 4
  }

  function IpTotal(p: seq<u8>): u16
    requires |p| >= IP_HDR
  {
    Be16(p[2], p[3])
  }

  /** Packets that are not dropped. */
  predicate Sendable(p: seq<u8>)
    requires |p| >= IP_HDR
  {
    HdrLen(p) != 0 && HdrLen(p) <= IpTotal(p) <= 1500
  }

  /** A packet that is sent has a whole IP header; of a shorter one the driver reads bytes nobody wrote. */
  predicate Header(p: seq<u8>) {
    |p| >= IP_HDR && (Sendable(p) ==> IpTotal(p) >= IP_HDR)
  }

  /** The packet h with its addresses exchanged unless the source already is ours. */
  function FixAddresses(h: seq<u8>, my_ip: Ip4): (r: seq<u8>)
    requires |h| >= IP_HDR
    ensures |r| == |h|
  {
    if h[12..16] != my_ip then h[..12] + h[16..20] + h[12..16] + h[20..] else h
  }

  /** The checksum of the first n bytes, which may be fewer than the header, stored in the header's field. */
  function SealIp(p: seq<u8>, n: nat): (r: seq<u8>)
    requires |p| >= IP_HDR && n <= |p|
    ensures |r| == |p|
  {
    var z := p[10 := 0][11 := 0];
    z[10 := Hi(Cksum(z[..n]))][11 := Lo(Cksum(z[..n]))]
  }

  function SealHeader(h: seq<u8>): (r: seq<u8>)
    requires |h| >= IP_HDR
    ensures |r| == |h|
  {
    Sealed(h[10 := 0][11 := 0], 10)
  }

  /** The byte-order detection and the field swaps it guards. */
  function ToWire(t: seq<u8>): (r: seq<u8>)
    requires |t| >= TCP_HDR
    ensures |r| == |t|
  {
    if t[12] / 0x10 == 5 then t
    else [t[1], t[0], t[3], t[2], t[7], t[6], t[5], t[4], t[11], t[10], t[9], t[8],
          t[13], t[12], t[15], t[14], t[16], t[17], t[19], t[18]] + t[20..]
  }

  /** The pseudo header of section 3.1 of RFC 9293. */
  function Pseudo(src: Ip4, dst: Ip4, len: u16): (r: seq<u8>)
    ensures |r| == 12
  {
    src + dst + [0, PROTO_TCP] + [len / 0x100, len % 0x100]
  }

  function SealTcp(src: Ip4, dst: Ip4, t: seq<u8>): (r: seq<u8>)
    requires TCP_HDR <= |t| < M16
    ensures |r| == |t|
  {
    Sealed(Pseudo(src, dst, |t|) + t[16 := 0][17 := 0], 28)[12..]
  }

  /** Byte order and checksum of the segment at offset o, which overlaps the addresses when o is below 20. */
  function EmitTcp(h: seq<u8>, o: nat): (r: seq<u8>)
    requires IP_HDR <= |h| < M16 && o + TCP_HDR <= |h|
    ensures |r| == |h|
  {
    var w := h[..o] + ToWire(h[o..]);
    w[..o] + SealTcp(w[12..16], w[16..20], w[o..])
  }

  /** The IP packet put on the wire for p. */
  function Emit(p: seq<u8>, my_ip: Ip4): (r: seq<u8>)
    requires Header(p) && Sendable(p) && |p| == IpTotal(p)
    ensures |r| == |p|
  {
    var h := SealIp(FixAddresses(p, my_ip), HdrLen(p));
    if p[9] == PROTO_TCP && |p| >= HdrLen(p) + TCP_HDR then EmitTcp(h, HdrLen(p)) else h
  }

  // ---- what send_tcp_packet builds --------------------------------------

  /** The socket fields send_tcp_packet reads. */
  datatype Endpoint = Endpoint(local_ip: Ip4, remote_ip: Ip4, local_port: u16, remote_port: u16, seq_num: u32, ack_num: u32)

  /** What the two kernel crafting calls decide: success, and the header fields the program leaves unset. */
  datatype Craft = Craft(tcp_ok: bool, checksum: u16, urgent: u16,
                         ip_ok: bool, dscp: u8, ident: u16, fragment: u16, ttl: u8, header_checksum: u16)

  function Header4(e: Endpoint, len: nat, k: Craft): (r: seq<u8>)
    requires len <= 1460
    ensures |r| == IP_HDR
  {
    [0x45, k.dscp] + [(40 + len) / 0x100, (40 + len) % 0x100] + [Lo(k.ident), Hi(k.ident), Lo(k.fragment), Hi(k.fragment)] +
    [k.ttl, PROTO_TCP, Lo(k.header_checksum), Hi(k.header_checksum)] + e.remote_ip + e.local_ip
  }

  function SegmentHeader(e: Endpoint, flags: u8, k: Craft): TcpHeader {
    TcpHeader(e.local_port, e.remote_port, e.seq_num, e.ack_num, 0x5000 + flags as int, 1024, k.checksum, k.urgent)
  }

  /** The packet handed to the driver: IP addresses inverted and the TCP header in host order. */
  function Packet(e: Endpoint, flags: u8, data: seq<u8>, k: Craft): (r: seq<u8>)
    requires |data| <= 1460
    ensures |r| == 40 + |data|
  {
    Header4(e, |data|, k) + HostBytes(SegmentHeader(e, flags, k)) + data
  }

  // ---- correctness of the transmitted packet -----------------------------

  /** A packet that a receiver accepts as e's segment: the IP header's fields, both checksums, and the bytes of the TCP
      header where section 3.1 of RFC 9293 puts them, which parse_tcp_packet then reads. */
  ghost predicate Delivers(ip: seq<u8>, e: Endpoint, flags: u8, data: seq<u8>) {
    && |data| <= 1460 && |ip| == 40 + |data|
    && ip[0] == 0x45 && 0x100 * (ip[2] as int) + ip[3] == 40 + |data| && ip[9] == 6
    && ip[12..16] == e.local_ip && ip[16..20] == e.remote_ip
    && Cksum(ip[..20]) == 0
    && Cksum(e.local_ip + e.remote_ip + [0, 6] + [(20 + |data|) / 0x100, (20 + |data|) % 0x100] + ip[20..]) == 0
    && HeaderSays(ip[20..40], e, flags) && ip[40..] == data
    && var t := ParseTcp(ip[20..]);
    && t.source_port == e.local_port && t.dest_port == e.remote_port
    && t.seq_num == e.seq_num && t.ack_num == e.ack_num
    && t.data_offset_reserved_flags == 0x5000 + flags as int
  }

  /** The first sixteen bytes of a TCP header of five words, with a window of 1024. */
  ghost predicate HeaderSays(t: seq<u8>, e: Endpoint, flags: u8)
    requires |t| >= 16
  {
    && 0x100 * (t[0] as int) + t[1] == e.local_port && 0x100 * (t[2] as int) + t[3] == e.remote_port
    && 0x100_0000 * (t[4] as int) + 0x1_0000 * (t[5] as int) + 0x100 * (t[6] as int) + t[7] == e.seq_num
    && 0x100_0000 * (t[8] as int) + 0x1_0000 * (t[9] as int) + 0x100 * (t[10] as int) + t[11] == e.ack_num
    && t[12] == 0x50 && t[13] == flags && t[14] == 4 && t[15] == 0
  }

  lemma PacketShape(e: Endpoint, flags: u8, data: seq<u8>, k: Craft)
    requires |data| <= 1460
    ensures var p := Packet(e, flags, data, k);
            && Header(p) && Sendable(p) && IpTotal(p) == |p| && HdrLen(p) == 20 && p[9] == PROTO_TCP
            && p[12..16] == e.remote_ip && p[16..20] == e.local_ip
            && p[20..] == HostBytes(SegmentHeader(e, flags, k)) + data
  {
  }

  /** Detection turns the host-order header into the wire header exactly when the flags' high nibble is not 5,
      or when swapping would change nothing; a header already in network order is kept. */
  lemma HostToWire(h: TcpHeader, rest: seq<u8>)
    requires h.data_offset_reserved_flags / 0x1000 == 5
    ensures ToWire(HostBytes(h) + rest) == WireBytes(h) + rest
      <==> Lo(h.data_offset_reserved_flags) / 0x10 != 5 || HostBytes(h) == WireBytes(h)
    ensures ToWire(WireBytes(h) + rest) == WireBytes(h) + rest
  {
    var s, w := HostBytes(h), WireBytes(h);
    var o := h.data_offset_reserved_flags;
    assert Hi(o) / 0x10 == 5;
    var t := s + rest;
    assert t[20..] == rest;
    assert [t[1], t[0], t[3], t[2], t[7], t[6], t[5], t[4], t[11], t[10], t[9], t[8],
            t[13], t[12], t[15], t[14], t[16], t[17], t[19], t[18]] == w;
    Joined(s, rest);
    Joined(w, rest);
  }

  lemma Joined<T>(a: seq<T>, b: seq<T>)
    ensures (a + b)[..|a|] == a && (a + b)[|a|..] == b
  {
  }

  lemma ParseWire(h: TcpHeader, t: seq<u8>)
    requires |t| >= TCP_HDR && forall i :: 0 <= i < 16 ==> t[i] == WireBytes(h)[i]
    ensures var r := ParseTcp(t);
            && r.source_port == h.source_port && r.dest_port == h.dest_port
            && r.seq_num == h.seq_num && r.ack_num == h.ack_num
            && r.data_offset_reserved_flags == h.data_offset_reserved_flags
  {
    Swap16Bytes(t[0], t[1]);
    Swap16Bytes(t[2], t[3]);
    Swap32Bytes(t[4], t[5], t[6], t[7]);
    Swap32Bytes(t[8], t[9], t[10], t[11]);
    Swap16Bytes(t[12], t[13]);
  }

  lemma FixAddressesFacts(h: seq<u8>, my_ip: Ip4)
    requires |h| == IP_HDR
    ensures var r := FixAddresses(h, my_ip);
            && (forall i :: 0 <= i < 12 ==> r[i] == h[i])
            && r[12..16] == (if h[12..16] == my_ip then h[12..16] else h[16..20])
            && r[16..20] == (if h[12..16] == my_ip then h[16..20] else h[12..16])
  {
  }

  lemma SealHeaderFacts(h: seq<u8>)
    requires |h| >= IP_HDR && |h| % 2 == 0
    ensures var r := SealHeader(h);
            && Cksum(r) == 0 && r[12..16] == h[12..16] && r[16..20] == h[16..20]
            && (forall i :: 0 <= i < 10 ==> r[i] == h[i])
            && SealHeader(r) == r
  {
    SealedVerifies(h[10 := 0][11 := 0], 10);
    assert SealHeader(h)[10 := 0][11 := 0] == h[10 := 0][11 := 0];
  }

  lemma SealTcpFacts(src: Ip4, dst: Ip4, t: seq<u8>)
    requires TCP_HDR <= |t| < M16
    ensures var r := SealTcp(src, dst, t);
            && Cksum(Pseudo(src, dst, |t|) + r) == 0
            && (forall i :: 0 <= i < 16 || 18 <= i < |r| ==> r[i] == t[i])
            && SealTcp(src, dst, r) == r
  {
    var z := Pseudo(src, dst, |t|) + t[16 := 0][17 := 0];
    SealedVerifies(z, 28);
    var r := SealTcp(src, dst, t);
    assert Pseudo(src, dst, |t|) + r == Sealed(z, 28);
    assert r[16 := 0][17 := 0] == t[16 := 0][17 := 0];
  }

  /** With a whole header of its own, header and segment are sealed apart. */
  lemma EmitJoined(hdr: seq<u8>, t: seq<u8>, my_ip: Ip4)
    requires 20 <= |t| <= 1480 && |hdr| == IP_HDR
    requires hdr[0] == 0x45 && Be16(hdr[2], hdr[3]) == 20 + |t| && hdr[9] == PROTO_TCP
    ensures var p := hdr + t; Header(p) && Sendable(p) && |p| == IpTotal(p)
    ensures var h := SealHeader(FixAddresses(hdr, my_ip));
            Emit(hdr + t, my_ip) == h + SealTcp(h[12..16], h[16..20], ToWire(t))
  {
    hide SealTcp, ToWire, Cksum;
    var p := hdr + t;
    Joined(hdr, t);
    assert p[..20] == hdr && p[20..] == t;
    assert p[0] == 0x45 && p[2] == hdr[2] && p[3] == hdr[3] && p[9] == hdr[9];
    assert HdrLen(p) == 20;
    var h := SealHeader(FixAddresses(hdr, my_ip));
    HeaderApart(hdr, t, my_ip);
    Joined(h, t);
    var w := h + ToWire(t);
    Joined(h, ToWire(t));
    assert w[12..16] == h[12..16] && w[16..20] == h[16..20];
  }

  lemma HeaderApart(hdr: seq<u8>, t: seq<u8>, my_ip: Ip4)
    requires |hdr| == IP_HDR
    ensures SealIp(FixAddresses(hdr + t, my_ip), IP_HDR) == SealHeader(FixAddresses(hdr, my_ip)) + t
  {
    hide Cksum;
    var p, f := hdr + t, FixAddresses(hdr, my_ip);
    assert p[12..16] == hdr[12..16] && p[16..20] == hdr[16..20];
    assert FixAddresses(p, my_ip) == f + t;
    assert (f + t)[10 := 0][11 := 0][..IP_HDR] == f[10 := 0][11 := 0];
  }

  /** The emitted packet, part by part. */
  lemma EmitParts(e: Endpoint, t: seq<u8>, hdr: seq<u8>, my_ip: Ip4)
    requires 20 <= |t| <= 1480 && |hdr| == IP_HDR
    requires hdr[0] == 0x45 && Be16(hdr[2], hdr[3]) == 20 + |t| && hdr[9] == PROTO_TCP
    requires hdr[12..16] == e.remote_ip && hdr[16..20] == e.local_ip
    ensures var p := hdr + t; Header(p) && Sendable(p) && |p| == IpTotal(p)
    ensures var h := SealHeader(FixAddresses(hdr, my_ip));
            var src, dst := if e.remote_ip == my_ip then e.remote_ip else e.local_ip,
                            if e.remote_ip == my_ip then e.local_ip else e.remote_ip;
            && Emit(hdr + t, my_ip) == h + SealTcp(src, dst, ToWire(t))
            && Cksum(h) == 0 && h[12..16] == src && h[16..20] == dst
            && forall i :: 0 <= i < 10 ==> h[i] == hdr[i]
  {
    EmitJoined(hdr, t, my_ip);
    FixAddressesFacts(hdr, my_ip);
    SealHeaderFacts(FixAddresses(hdr, my_ip));
  }

  /** The segment whose first 16 bytes and tail are those of the wire form. */
  lemma SegmentOnWire(e: Endpoint, flags: u8, data: seq<u8>, k: Craft, r: seq<u8>)
    requires var w := ToWire(HostBytes(SegmentHeader(e, flags, k)) + data);
             |r| == |w| && (forall i :: 0 <= i < 16 || 18 <= i < |r| ==> r[i] == w[i])
    ensures r[20..] == data
    ensures HeaderSays(r[..20], e, flags) <==> flags / 0x10 != 5
    ensures flags / 0x10 != 5 ==>
      var t := ParseTcp(r);
      && t.source_port == e.local_port && t.dest_port == e.remote_port
      && t.seq_num == e.seq_num && t.ack_num == e.ack_num
      && t.data_offset_reserved_flags == 0x5000 + flags as int
  {
    var h := SegmentHeader(e, flags, k);
    HostToWire(h, data);
    if flags / 0x10 != 5 {
      ParseWire(h, r);
      WireSays(e, flags, k, r[..20]);
    } else {
      assert r[14] == 0;
    }
  }

  lemma WireSays(e: Endpoint, flags: u8, k: Craft, t: seq<u8>)
    requires |t| >= 16 && forall i :: 0 <= i < 16 ==> t[i] == WireBytes(SegmentHeader(e, flags, k))[i]
    ensures HeaderSays(t, e, flags)
  {
    BytesOf(e.seq_num);
    BytesOf(e.ack_num);
    var o: u16 := 0x5000 + flags as int;
    assert Hi(o) == 0x50 && Lo(o) == flags;
  }

  lemma BytesOf(x: u32)
    ensures var s := Le32(x); 0x100_0000 * (s[3] as int) + 0x1_0000 * (s[2] as int) + 0x100 * (s[1] as int) + s[0] == x
  {
    var y := x / 0x100;
    var z := y / 0x100;
    assert x == 0x100 * y + x % 0x100 && y == 0x100 * z + y % 0x100 && z == 0x100 * (z / 0x100) + z % 0x100;
  }

  /** Exactly when the transmitted packet is right: the detection must recognise host order (flags' high nibble
      not 5) and the address fix-up must recognise the inversion. */
  lemma TransmitExact(e: Endpoint, flags: u8, data: seq<u8>, k: Craft, my_ip: Ip4)
    requires |data| <= 1460
    ensures Delivers(Emit(Packet(e, flags, data, k), my_ip), e, flags, data)
      <==> flags / 0x10 != 5 && (e.remote_ip != my_ip || e.remote_ip == e.local_ip)
  {
    var t := HostBytes(SegmentHeader(e, flags, k)) + data;
    var hdr := Header4(e, |data|, k);
    assert Packet(e, flags, data, k) == hdr + t;
    EmitParts(e, t, hdr, my_ip);
    var h := SealHeader(FixAddresses(hdr, my_ip));
    var s := SealTcp(h[12..16], h[16..20], ToWire(t));
    SealTcpFacts(h[12..16], h[16..20], ToWire(t));
    SegmentOnWire(e, flags, data, k, s);
    DeliversParts(h, s, e, flags, data);
  }

  lemma DeliversParts(h: seq<u8>, s: seq<u8>, e: Endpoint, flags: u8, data: seq<u8>)
    requires |h| == 20 && |data| <= 1460 && |s| == 20 + |data|
    requires Cksum(h) == 0 && s[20..] == data && h[0] == 0x45 && h[9] == 6 && 0x100 * (h[2] as int) + h[3] == 40 + |data|
    ensures Delivers(h + s, e, flags, data) <==>
      && h[12..16] == e.local_ip && h[16..20] == e.remote_ip
      && Cksum(Pseudo(e.local_ip, e.remote_ip, |s|) + s) == 0
      && HeaderSays(s[..20], e, flags)
      && var t := ParseTcp(s);
      && t.source_port == e.local_port && t.dest_port == e.remote_port
      && t.seq_num == e.seq_num && t.ack_num == e.ack_num
      && t.data_offset_reserved_flags == 0x5000 + flags as int
  {
    Joined(h, s);
    assert (h + s)[12..16] == h[12..16] && (h + s)[16..20] == h[16..20];
    assert (h + s)[40..] == s[20..] && (h + s)[20..40] == s[..20];
  }

  /** Every flag set the program uses, from a socket bound to the driver's own address. */
  lemma TransmitCorrect(e: Endpoint, flags: u8, data: seq<u8>, k: Craft)
    requires |data| <= 1460
    requires flags in {Tcp.SYN, Tcp.SYN + Tcp.ACK, Tcp.ACK, Tcp.FIN + Tcp.ACK, Tcp.RST}
    ensures Delivers(Emit(Packet(e, flags, data, k), e.local_ip), e, flags, data)
  {
    TransmitExact(e, flags, data, k, e.local_ip);
  }

  lemma SameWireSameEmit(hdr: seq<u8>, t: seq<u8>, u: seq<u8>, my_ip: Ip4)
    requires 20 <= |t| <= 1480 && |hdr| == IP_HDR && |u| == |t|
    requires hdr[0] == 0x45 && Be16(hdr[2], hdr[3]) == 20 + |t| && hdr[9] == PROTO_TCP
    requires ToWire(t) == ToWire(u)
    ensures Header(hdr + t) && Sendable(hdr + t) && |hdr + t| == IpTotal(hdr + t)
    ensures Header(hdr + u) && Sendable(hdr + u) && |hdr + u| == IpTotal(hdr + u)
    ensures Emit(hdr + t, my_ip) == Emit(hdr + u, my_ip)
  {
    EmitJoined(hdr, t, my_ip);
    EmitJoined(hdr, u, my_ip);
  }

  /** The same segment with its header already in network order. */
  function NetworkPacket(e: Endpoint, flags: u8, data: seq<u8>, k: Craft): seq<u8>
    requires |data| <= 1460
  {
    Header4(e, |data|, k) + (WireBytes(SegmentHeader(e, flags, k)) + data)
  }

  /** Header bytes already in network order come out the same as host-order ones. */
  lemma OrderIndependent(e: Endpoint, flags: u8, data: seq<u8>, k: Craft, my_ip: Ip4)
    requires |data| <= 1460 && flags / 0x10 != 5
    ensures var n := NetworkPacket(e, flags, data, k);
            && Header(n) && Sendable(n) && |n| == IpTotal(n)
            && Emit(n, my_ip) == Emit(Packet(e, flags, data, k), my_ip)
  {
    var hdr := Header4(e, |data|, k);
    var t, u := HostBytes(SegmentHeader(e, flags, k)) + data, WireBytes(SegmentHeader(e, flags, k)) + data;
    HostToWire(SegmentHeader(e, flags, k), data);
    SameWireSameEmit(hdr, t, u, my_ip);
    assert Packet(e, flags, data, k) == hdr + t;
  }

  /** Transmitting an emitted packet again changes nothing, once its source is ours. */
  lemma EmitIdempotent(e: Endpoint, flags: u8, data: seq<u8>, k: Craft)
    requires |data| <= 1460 && flags / 0x10 != 5
    ensures var r := Emit(Packet(e, flags, data, k), e.local_ip);
            && Header(r) && Sendable(r) && |r| == IpTotal(r)
            && Emit(r, e.local_ip) == r
  {
    var t := HostBytes(SegmentHeader(e, flags, k)) + data;
    var hdr := Header4(e, |data|, k);
    assert Packet(e, flags, data, k) == hdr + t;
    EmitTwice(e, flags, data, k, hdr);
  }

  lemma EmitTwice(e: Endpoint, flags: u8, data: seq<u8>, k: Craft, hdr: seq<u8>)
    requires |data| <= 1460 && flags / 0x10 != 5
    requires |hdr| == IP_HDR && hdr[0] == 0x45 && Be16(hdr[2], hdr[3]) == 40 + |data| && hdr[9] == PROTO_TCP
    requires hdr[12..16] == e.remote_ip && hdr[16..20] == e.local_ip
    ensures var t := HostBytes(SegmentHeader(e, flags, k)) + data;
            && Header(hdr + t) && Sendable(hdr + t) && |hdr + t| == IpTotal(hdr + t)
            && var r := Emit(hdr + t, e.local_ip);
            && Header(r) && Sendable(r) && |r| == IpTotal(r)
            && Emit(r, e.local_ip) == r
  {
    var w := ToWire(HostBytes(SegmentHeader(e, flags, k)) + data);
    EmitJoined(hdr, HostBytes(SegmentHeader(e, flags, k)) + data, e.local_ip);
    FixAddressesFacts(hdr, e.local_ip);
    var f := FixAddresses(hdr, e.local_ip);
    SealHeaderFacts(f);
    var h := SealHeader(f);
    SealTcpFacts(h[12..16], h[16..20], w);
    WireStays(e, flags, data, k, SealTcp(h[12..16], h[16..20], w));
    EmitSealed(h, SealTcp(h[12..16], h[16..20], w), e.local_ip);
  }

  lemma EmitSealed(h: seq<u8>, s: seq<u8>, my_ip: Ip4)
    requires 20 <= |s| <= 1480 && |h| == IP_HDR
    requires h[0] == 0x45 && Be16(h[2], h[3]) == 20 + |s| && h[9] == PROTO_TCP
    requires h[12..16] == my_ip && SealHeader(h) == h
    requires ToWire(s) == s && SealTcp(h[12..16], h[16..20], s) == s
    ensures Header(h + s) && Sendable(h + s) && |h + s| == IpTotal(h + s)
    ensures Emit(h + s, my_ip) == h + s
  {
    EmitJoined(h, s, my_ip);
  }

  lemma WireStays(e: Endpoint, flags: u8, data: seq<u8>, k: Craft, r: seq<u8>)
    requires flags / 0x10 != 5
    requires var w := ToWire(HostBytes(SegmentHeader(e, flags, k)) + data);
             |r| == |w| && (forall i :: 0 <= i < 16 || 18 <= i < |r| ==> r[i] == w[i])
    ensures ToWire(r) == r
  {
    HostToWire(SegmentHeader(e, flags, k), data);
  }
}
