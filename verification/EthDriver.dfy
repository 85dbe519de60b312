/** The transmit path of net.c on real buffers: send_tcp_packet and eth_drv_send. */
module EthDriver {
  import opened Bytes
  import opened Checksum
  import opened Transmit
  import ArpCache

  const BROADCAST: Mac := [0xff, 0xff, 0xff, 0xff, 0xff, 0xff]

  /** Own or unresolved addresses go to the broadcast MAC. */
  function NextHop(mac: Option<Mac>, mine: Mac): Mac {
    if mac.None? || mac.value == mine then BROADCAST else mac.value
  }

  class Driver {
    var eth_my_ip: Ip4
    var eth_my_mac: Mac
    const cache: ArpCache.Cache
    /** Frames handed to send_eth_frame, oldest first. */
    ghost var wire: seq<seq<u8>>

    ghost predicate Valid()
      reads this, cache, cache.eth_arp_cache
    {
      cache.Valid()
    }

    constructor (ip: Ip4, mac: Mac)
      ensures Valid() && eth_my_ip == ip && eth_my_mac == mac && wire == []
    {
      eth_my_ip, eth_my_mac, wire := ip, mac, [];
      cache := new ArpCache.Cache();
    }

    /** The frame for an IP packet: next hop of its destination, own MAC, IPv4 ethertype, then the packet. */
    ghost function Frame(ip: seq<u8>): seq<u8>
      requires |ip| >= IP_HDR
      reads this, cache
    {
      NextHop(ArpCache.Lookup(ArpCache.After(cache.history), ip[16..20]), eth_my_mac) + eth_my_mac + [0x08, 0x00] + ip
    }

    /** A frame is the destination's MAC, the driver's, the IPv4 ethertype and the packet. A destination MAC other than
        broadcast is the one last learned for the packet's destination address, and not the driver's own; while at most
        eight addresses have been learned, every learned one other than the driver's own is used. */
    lemma FrameBytes(ip: seq<u8>)
      requires |ip| >= IP_HDR
      ensures var f, dst, known := Frame(ip), ip[16..20], ArpCache.Learned(cache.history);
              && |f| == 14 + |ip| && f[6..12] == eth_my_mac && f[12] == 0x08 && f[13] == 0x00 && f[14..] == ip
              && (f[..6] != [0xff, 0xff, 0xff, 0xff, 0xff, 0xff] ==>
                    dst in known && f[..6] == known[dst] && f[..6] != eth_my_mac)
              && (|known.Keys| <= 8 && dst in known && known[dst] != eth_my_mac ==> f[..6] == known[dst])
    {
      ArpCache.HitIsLatest(cache.history, ip[16..20]);
      if |ArpCache.Learned(cache.history).Keys| <= 8 {
        ArpCache.CompleteUpToEight(cache.history);
      }
    }

    method EthDrvSend(ip_pkt: array<u8>)
      requires Valid() && Header(ip_pkt[..])
      requires Sendable(ip_pkt[..]) ==> IpTotal(ip_pkt[..]) <= ip_pkt.Length
      modifies this`wire
      ensures Valid()
      ensures wire == old(wire) + if Sendable(ip_pkt[..]) then [Frame(Emit(ip_pkt[..IpTotal(ip_pkt[..])], eth_my_ip))] else []
      ensures |wire| > |old(wire)| <==>
        ip_pkt[0] % 0x10 != 0 && 4 * (ip_pkt[0] % 0x10) <= 0x100 * (ip_pkt[2] as int) + ip_pkt[3] <= 1500
    {
      var hdr_len := ip_pkt[0] % 0x10 * 4;
      if hdr_len == 0 {
        return;
      }
      var ip_total := Be16(ip_pkt[2], ip_pkt[3]);
      if ip_total < hdr_len || ip_total > 1500 {
        return;
      }
      ghost var p := ip_pkt[..ip_total];
      var pkt := new u8[1500];
      Memcpy(pkt, 0, ip_pkt[..ip_total]);
      assert pkt[..ip_total] == p;
      assert p[0] == ip_pkt[0] && p[9] == ip_pkt[9];
      Rewrite(pkt, hdr_len, ip_total);
      SendFrame(pkt, ip_total);
    }

    /** Everything eth_drv_send does to its copy of the packet. */
    method Rewrite(pkt: array<u8>, hdr_len: nat, ip_total: nat)
      requires IP_HDR <= ip_total <= 1500 && 0 < hdr_len <= ip_total && pkt.Length == 1500
      requires hdr_len == pkt[0] % 0x10 * 4 && ip_total == Be16(pkt[2], pkt[3])
      modifies pkt
      ensures pkt[..ip_total] == Emit(old(pkt[..ip_total]), eth_my_ip)
    {
      hide EmitTcp, SealIp, FixAddresses;
      ghost var p := pkt[..ip_total];
      assert p[0] == pkt[0] && p[2] == pkt[2] && p[3] == pkt[3] && p[9] == pkt[9];
      FixHeader(pkt, hdr_len, ip_total);
      if pkt[9] == PROTO_TCP && ip_total >= hdr_len + TCP_HDR {
        FixTcp(pkt, hdr_len, ip_total);
      }
    }

    static lemma Cut(s: seq<u8>, h: seq<u8>, t: seq<u8>)
      requires |s| == |h| + |t| && s[..|h|] == h && s[|h|..] == t
      ensures s == h + t
    {
    }

    /** Next hop lookup, Ethernet header, send_eth_frame. */
    method SendFrame(pkt: array<u8>, ip_total: nat)
      requires Valid() && IP_HDR <= ip_total <= 1500 && ip_total <= pkt.Length
      modifies this`wire
      ensures Valid() && wire == old(wire) + [Frame(pkt[..ip_total])]
    {
      var mac := cache.Find(pkt[16..20]);
      var dst_mac := if mac.None? || mac.value == eth_my_mac then BROADCAST else mac.value;
      var frame := BuildFrame(dst_mac, eth_my_mac, pkt[..ip_total]);
      assert pkt[16..20] == pkt[..ip_total][16..20];
      wire := wire + [frame[..14 + ip_total]];
    }

    static method BuildFrame(dst: Mac, src: Mac, ip: seq<u8>) returns (frame: array<u8>)
      requires |ip| <= 1500
      ensures fresh(frame) && frame.Length == 1514
      ensures frame[..14 + |ip|] == dst + src + [0x08, 0x00] + ip
    {
      frame := new u8[1514];
      Memcpy(frame, 0, dst);
      Memcpy(frame, 6, src);
      ghost var head: seq<u8> := frame[..12];
      assert forall k :: 0 <= k < 6 ==> head[k] == dst[k] && head[k + 6] == src[k];
      assert head == dst + src;
      frame[12], frame[13] := 0x08, 0x00;
      Memcpy(frame, 14, ip);
      assert frame[..12] == head;
    }

    /** Address fix-up and header checksum, in place. */
    method FixHeader(pkt: array<u8>, hdr_len: nat, ip_total: nat)
      requires IP_HDR <= ip_total <= pkt.Length && hdr_len <= 60 && hdr_len <= ip_total
      modifies pkt
      ensures pkt[..ip_total] == SealIp(FixAddresses(old(pkt[..ip_total]), eth_my_ip), hdr_len)
      ensures pkt[9] == old(pkt[9])
    {
      hide Cksum;
      FixSource(pkt, ip_total);
      ghost var f := pkt[..ip_total];
      pkt[10], pkt[11] := 0, 0;
      assert pkt[..ip_total] == f[10 := 0][11 := 0];
      assert pkt[..hdr_len] == f[10 := 0][11 := 0][..hdr_len];
      AccumulatorBound(hdr_len);
      var ck := InetCksum(pkt, hdr_len);
      pkt[10], pkt[11] := Hi(ck), Lo(ck);
    }

    method FixSource(pkt: array<u8>, n: nat)
      requires IP_HDR <= n <= pkt.Length
      modifies pkt
      ensures pkt[..n] == FixAddresses(old(pkt[..n]), eth_my_ip)
      ensures pkt[9] == old(pkt[9])
    {
      if pkt[12..16] != eth_my_ip {
        var tmp := pkt[12..16];
        Memcpy(pkt, 12, pkt[16..20]);
        assert pkt[12..16] == old(pkt[16..20]);
        Memcpy(pkt, 16, tmp);
        assert pkt[12..16] == old(pkt[16..20]) && pkt[16..20] == old(pkt[12..16]);
      }
      ghost var f := pkt[..n];
      assert f[12..16] == pkt[12..16] && f[16..20] == pkt[16..20];
      assert old(pkt[..n])[12..16] == old(pkt[12..16]) && old(pkt[..n])[16..20] == old(pkt[16..20]);
      Exchanged(old(pkt[..n]), f, eth_my_ip);
    }

    static lemma Exchanged(h: seq<u8>, f: seq<u8>, my_ip: Ip4)
      requires |f| == |h| >= IP_HDR
      requires forall i :: 0 <= i < 12 || 20 <= i < |h| ==> f[i] == h[i]
      requires h[12..16] == my_ip ==> f[12..20] == h[12..20]
      requires h[12..16] != my_ip ==> f[12..16] == h[16..20] && f[16..20] == h[12..16]
      ensures f == FixAddresses(h, my_ip)
    {
      assert f[..12] == h[..12];
      assert f[20..] == h[20..];
      if h[12..16] != my_ip {
        assert f == f[..12] + f[12..16] + f[16..20] + f[20..];
      } else {
        assert f == f[..12] + f[12..20] + f[20..];
        assert h == h[..12] + h[12..20] + h[20..];
      }
    }

    /** Byte order and checksum of the TCP segment at offset o, in place. */
    method FixTcp(pkt: array<u8>, o: nat, ip_total: nat)
      requires 4 <= o && o + TCP_HDR <= ip_total <= 1500 && ip_total <= pkt.Length
      modifies pkt
      ensures pkt[..ip_total] == EmitTcp(old(pkt[..ip_total]), o)
    {
      hide ToWire, SealTcp;
      ghost var h := pkt[..ip_total];
      assert h[..o] == pkt[..o] && h[o..] == pkt[o..ip_total];
      SwapFields(pkt, o, ip_total);
      ghost var w := pkt[..ip_total];
      Cut(w, pkt[..o], pkt[o..ip_total]);
      assert w[12..16] == pkt[12..16] && w[16..20] == pkt[16..20];
      FillChecksum(pkt, o, ip_total);
      Cut(pkt[..ip_total], pkt[..o], pkt[o..ip_total]);
      assert w[..o] == h[..o] && w[o..] == ToWire(h[o..]);
    }

    static method FillChecksum(pkt: array<u8>, o: nat, ip_total: nat)
      requires 4 <= o && o + TCP_HDR <= ip_total <= 1500 && ip_total <= pkt.Length
      modifies pkt
      ensures pkt[..o] == old(pkt[..o])
      ensures pkt[o..ip_total] == SealTcp(old(pkt[12..16]), old(pkt[16..20]), old(pkt[o..ip_total]))
    {
      hide Total, WordSum, OnesSum;
      ghost var t: seq<u8> := pkt[o..ip_total];
      ghost var src: Ip4, dst: Ip4 := pkt[12..16], pkt[16..20];
      ghost var ph := Pseudo(src, dst, ip_total - o);
      Store2(pkt, o, ip_total, 0, 0);
      assert pkt[12..16] == src && pkt[16..20] == dst;
      var ck := TcpCksum(pkt, o, ip_total - o);
      assert ck == Cksum(ph + t[16 := 0][17 := 0]);
      Store2(pkt, o, ip_total, Hi(ck), Lo(ck));
      assert t[16 := 0][17 := 0][16 := Hi(ck)][17 := Lo(ck)] == t[16 := Hi(ck)][17 := Lo(ck)];
      Refill(ph, t, ck);
    }

    /** The two bytes of the checksum field. */
    static method Store2(pkt: array<u8>, o: nat, ip_total: nat, hi: u8, lo: u8)
      requires 4 <= o && o + TCP_HDR <= ip_total <= pkt.Length
      modifies pkt
      ensures pkt[..o] == old(pkt[..o]) && pkt[12..16] == old(pkt[12..16]) && pkt[16..20] == old(pkt[16..20])
      ensures pkt[o..ip_total] == old(pkt[o..ip_total])[16 := hi][17 := lo]
    {
      pkt[o + 16], pkt[o + 17] := hi, lo;
    }

    static lemma Refill(ph: seq<u8>, t: seq<u8>, ck: u16)
      requires |ph| == 12 && |t| >= TCP_HDR && ck == Cksum(ph + t[16 := 0][17 := 0])
      ensures t[16 := Hi(ck)][17 := Lo(ck)] == Sealed(ph + t[16 := 0][17 := 0], 28)[12..]
    {
    }

    method SwapFields(pkt: array<u8>, o: nat, ip_total: nat)
      requires o + TCP_HDR <= ip_total <= pkt.Length
      modifies pkt
      ensures pkt[..o] == old(pkt[..o])
      ensures pkt[o..ip_total] == ToWire(old(pkt[o..ip_total]))
    {
      if pkt[o + 12] / 0x10 != 5 {
        ghost var t: seq<u8> := pkt[o..ip_total];
        Swap2(pkt, o, 0, ip_total);
        Swap2(pkt, o, 2, ip_total);
        Swap4(pkt, o, 4, ip_total);
        Swap4(pkt, o, 8, ip_total);
        Swap2(pkt, o, 12, ip_total);
        Swap2(pkt, o, 14, ip_total);
        Swap2(pkt, o, 18, ip_total);
        SwappedAll(t);
      }
    }

    /** A uint16_t field at byte j of the segment replaced by its swap16. */
    static method Swap2(pkt: array<u8>, o: nat, j: nat, end: nat)
      requires o + j + 2 <= end <= pkt.Length
      modifies pkt
      ensures pkt[..o] == old(pkt[..o])
      ensures pkt[o..end] == Swapped2(old(pkt[o..end]), j)
    {
      pkt[o + j], pkt[o + j + 1] := pkt[o + j + 1], pkt[o + j];
    }

    /** A uint32_t field at byte j of the segment replaced by its swap32. */
    static method Swap4(pkt: array<u8>, o: nat, j: nat, end: nat)
      requires o + j + 4 <= end <= pkt.Length
      modifies pkt
      ensures pkt[..o] == old(pkt[..o])
      ensures pkt[o..end] == Swapped4(old(pkt[o..end]), j)
    {
      pkt[o + j], pkt[o + j + 3] := pkt[o + j + 3], pkt[o + j];
      pkt[o + j + 1], pkt[o + j + 2] := pkt[o + j + 2], pkt[o + j + 1];
    }

    static ghost function Swapped2(t: seq<u8>, j: nat): (r: seq<u8>)
      requires j + 2 <= |t|
      ensures |r| == |t|
    {
      t[j := t[j + 1]][j + 1 := t[j]]
    }

    static ghost function Swapped4(t: seq<u8>, j: nat): (r: seq<u8>)
      requires j + 4 <= |t|
      ensures |r| == |t|
    {
      t[j := t[j + 3]][j + 3 := t[j]][j + 1 := t[j + 2]][j + 2 := t[j + 1]]
    }

    lemma SwappedAll(t: seq<u8>)
      requires |t| >= TCP_HDR && t[12] / 0x10 != 5
      ensures Swapped2(Swapped2(Swapped2(Swapped4(Swapped4(Swapped2(Swapped2(t, 0), 2), 4), 8), 12), 14), 18) == ToWire(t)
    {
    }

    /** The checksum of the segment and its pseudo header, accumulated without building the latter. */
    static method TcpCksum(pkt: array<u8>, o: nat, tcp_len: nat) returns (r: u16)
      requires IP_HDR <= o + tcp_len <= pkt.Length && tcp_len <= 1500
      ensures r == Cksum(Pseudo(pkt[12..16], pkt[16..20], tcp_len) + pkt[o..o + tcp_len])
    {
      hide WordSum, OnesSum, Fold, Pseudo;
      var sum: u32 := Be16(pkt[12], pkt[13]);
      sum := sum + Be16(pkt[14], pkt[15]);
      sum := sum + Be16(pkt[16], pkt[17]);
      sum := sum + Be16(pkt[18], pkt[19]);
      sum := sum + PROTO_TCP;
      sum := sum + tcp_len;
      ghost var ph, t := Pseudo(pkt[12..16], pkt[16..20], tcp_len), pkt[o..o + tcp_len];
      PseudoSum(pkt[12..16], pkt[16..20], tcp_len);
      sum := AddSegment(pkt, o, tcp_len, sum);
      TotalAppend(ph, t);
      FoldIsOnesSum(ph + t, WordCount(|ph + t|));
      r := FoldCarries(sum);
      r := 0xffff - r;
    }

    static method AddSegment(pkt: array<u8>, o: nat, tcp_len: nat, start: u32) returns (sum: u32)
      requires o + tcp_len <= pkt.Length && tcp_len <= 1500 && start <= 0x8_0000
      ensures sum == start + Total(pkt[o..o + tcp_len])
    {
      ghost var t, k := pkt[o..o + tcp_len], 0;
      sum := start;
      var i := 0;
      while i + 1 < tcp_len
        invariant 0 <= i <= tcp_len && i == 2 * k
        invariant sum == start + WordSum(t, k)
      {
        sum := sum + Be16(pkt[o + i], pkt[o + i + 1]);
        i, k := i + 2, k + 1;
      }
      if tcp_len % 2 == 1 {
        sum := sum + Be16(pkt[o + tcp_len - 1], 0);
      }
    }

    static lemma PseudoSum(src: Ip4, dst: Ip4, len: u16)
      ensures Total(Pseudo(src, dst, len))
           == Be16(src[0], src[1]) + Be16(src[2], src[3]) + Be16(dst[0], dst[1]) + Be16(dst[2], dst[3]) + PROTO_TCP + len
    {
      var s := Pseudo(src, dst, len);
      assert WordAt(s, 5) == len;
      assert WordAt(s, 4) == PROTO_TCP;
      assert WordAt(s, 3) == Be16(dst[2], dst[3]);
      assert WordAt(s, 2) == Be16(dst[0], dst[1]);
      assert WordAt(s, 1) == Be16(src[2], src[3]);
      assert WordAt(s, 0) == Be16(src[0], src[1]);
      assert WordSum(s, 1) == WordAt(s, 0);
      assert WordSum(s, 2) == WordSum(s, 1) + WordAt(s, 1);
      assert WordSum(s, 3) == WordSum(s, 2) + WordAt(s, 2);
      assert WordSum(s, 4) == WordSum(s, 3) + WordAt(s, 3);
      assert WordSum(s, 5) == WordSum(s, 4) + WordAt(s, 4);
    }

    /** send_tcp_packet up to the driver: the request, the two crafting calls, the IP packet. The 1500-byte
        packet buffer bounds the payload. Returns whether a packet went out. */
    method SendTcpPacket(e: Endpoint, data: seq<u8>, flags: u8, k: Craft) returns (sent: bool)
      requires Valid() && |data| <= 1460
      modifies this`wire
      ensures Valid()
      ensures sent <==> k.tcp_ok && k.ip_ok
      ensures wire == old(wire) + if sent then [Frame(Emit(Packet(e, flags, data, k), eth_my_ip))] else []
    {
      hide Emit, Header4, HostBytes, SegmentHeader, NextHop;
      var packet_buf, tcp_packet := new u8[1500], new u8[1500];
      var request := SegmentHeader(e, flags, k);
      Memcpy(tcp_packet, 0, HostBytes(request) + e.local_ip + e.remote_ip + [Lo(|data|), Hi(|data|)]);
      Memcpy(tcp_packet, 30, data);
      if !k.tcp_ok {
        return false;
      }
      assert tcp_packet[..20] == HostBytes(request);
      Compose(packet_buf, Header4(e, |data|, k), tcp_packet[..20], data);
      if !k.ip_ok {
        return false;
      }
      PacketShape(e, flags, data, k);
      Truncated(packet_buf[..], Packet(e, flags, data, k));
      EthDrvSend(packet_buf);
      return true;
    }

    static method Compose(packet_buf: array<u8>, ip: seq<u8>, tcp: seq<u8>, data: seq<u8>)
      requires packet_buf.Length == 1500 && |ip| == IP_HDR && |tcp| == TCP_HDR && |data| <= 1460
      modifies packet_buf
      ensures packet_buf[..40 + |data|] == ip + tcp + data
    {
      Memcpy(packet_buf, 0, ip);
      Memcpy(packet_buf, 20, tcp);
      if |data| > 0 {
        Memcpy(packet_buf, 40, data);
      }
    }

    static lemma Truncated(buf: seq<u8>, p: seq<u8>)
      requires Header(p) && Sendable(p) && |p| == IpTotal(p) && |p| <= |buf| && buf[..|p|] == p
      ensures Header(buf) && Sendable(buf) && IpTotal(buf) == |p| && HdrLen(buf) == HdrLen(p)
    {
      assert buf[0] == p[0] && buf[2] == p[2] && buf[3] == p[3];
    }
  }
}
