/** The Internet checksum of bytes.h and the ICMP echo reply built with it. */
module Checksum {
  import opened Bytes

  /** Number of 16-bit words in n bytes, the last one padded. */
  function WordCount(n: nat): nat {
    (n + 1) / 2
  }

  /** The k-th 16-bit word in network order; an odd last byte is padded with zero. */
  function WordAt(s: seq<u8>, k: nat): u16
    requires k < WordCount(|s|)
  {
    Be16(s[2 * k], if 2 * k + 1 < |s| then s[2 * k + 1] else 0)
  }

  /** One's complement addition: the carry out of bit 15 is added back (section 1 of RFC 1071). */
  function OnesAdd(a: u16, b: u16): u16 {
    if a + b > 0xffff then a + b - 0xffff else a + b
  }

  /** One's complement sum of the first n words. */
  function OnesSum(s: seq<u8>, n: nat): u16
    requires n <= WordCount(|s|)
  {
    if n == 0 then 0 else OnesAdd(OnesSum(s, n - 1), WordAt(s, n - 1))
  }

  /** The checksum as RFC 1071 defines it. */
  function Cksum(s: seq<u8>): u16 {
    0xffff - OnesSum(s, WordCount(|s|))
  }

  /** Plain integer sum of the first n words, the quantity the accumulator holds. */
  function WordSum(s: seq<u8>, n: nat): (sum: nat)
    requires n <= WordCount(|s|)
    ensures sum <= 0xffff * n
  {
    if n == 0 then 0 else WordSum(s, n - 1) + WordAt(s, n - 1)
  }

  function Total(s: seq<u8>): nat {
    WordSum(s, WordCount(|s|))
  }

  lemma {:induction false} SumAppend(a: seq<u8>, b: seq<u8>, n: nat)
    requires |a| % 2 == 0 && n <= WordCount(|b|)
    ensures WordSum(a + b, |a| / 2 + n) == Total(a) + WordSum(b, n)
  {
    if n == 0 {
      SumPrefix(a, b, |a| / 2);
    } else {
      SumAppend(a, b, n - 1);
      assert WordAt(a + b, |a| / 2 + n - 1) == WordAt(b, n - 1);
    }
  }

  lemma {:induction false} SumPrefix(a: seq<u8>, b: seq<u8>, n: nat)
    requires 2 * n <= |a|
    ensures WordSum(a + b, n) == WordSum(a, n)
  {
    if n > 0 {
      SumPrefix(a, b, n - 1);
      assert WordAt(a + b, n - 1) == WordAt(a, n - 1);
    }
  }

  /** Sums add up across an even boundary. */
  lemma TotalAppend(a: seq<u8>, b: seq<u8>)
    requires |a| % 2 == 0
    ensures Total(a + b) == Total(a) + Total(b)
  {
    SumAppend(a, b, WordCount(|b|));
  }

  /** With TotalAppend this fixes every sum: two bytes are a word with the first one most significant, and an odd last
      byte counts as if a zero followed it. */
  lemma WordValues(a: u8, b: u8)
    ensures Total([]) == 0 && Total([a, b]) == 0x100 * (a as int) + b && Total([a]) == Total([a, 0]) == 0x100 * (a as int)
  {
    assert WordSum([a, b], 1) == WordSum([a, b], 0) + WordAt([a, b], 0);
    assert WordSum([a], 1) == WordSum([a], 0) + WordAt([a], 0);
    assert WordSum([a, 0], 1) == WordSum([a, 0], 0) + WordAt([a, 0], 0);
  }

  /** What folding the carries of n leaves. */
  function Fold(n: nat): u16 {
    if n == 0 then 0 else 1 + (n - 1) % 0xffff
  }

  lemma FoldUnique(f: u16, q: nat)
    requires f > 0
    ensures Fold(f + 0xffff * q) == f
  {
    var m := f - 1 + 0xffff * q;
    assert m / 0xffff == q;
  }

  lemma FoldWitness(n: nat) returns (q: nat)
    requires n > 0
    ensures n == Fold(n) + 0xffff * q
  {
    q := (n - 1) / 0xffff;
  }

  lemma FoldStep(n: nat)
    requires n >= M16
    ensures Fold(n % M16 + n / M16) == Fold(n)
    ensures 0 < n % M16 + n / M16 < n
  {
    var q := FoldWitness(n % M16 + n / M16);
    FoldUnique(Fold(n % M16 + n / M16), q + n / M16);
  }

  lemma FoldAdd(n: nat, w: u16)
    ensures OnesAdd(Fold(n), w) == Fold(n + w)
  {
    if n > 0 {
      var q := FoldWitness(n);
      if Fold(n) + w > 0xffff {
        FoldUnique(Fold(n) + w - 0xffff, q + 1);
      } else {
        FoldUnique(Fold(n) + w, q);
      }
    }
  }

  /** Folding once at the end agrees with end-around carry at every addition. */
  lemma {:induction false} FoldIsOnesSum(s: seq<u8>, n: nat)
    requires n <= WordCount(|s|)
    ensures OnesSum(s, n) == Fold(WordSum(s, n))
  {
    if n > 0 {
      FoldIsOnesSum(s, n - 1);
      FoldAdd(WordSum(s, n - 1), WordAt(s, n - 1));
    }
  }

  lemma ChecksumExact(s: seq<u8>, sum: u32)
    requires |s| < M32 && sum == Fold(Total(s) % M32)
    ensures 0xffff - sum == Cksum(s) <==> Total(s) < M32
  {
    FoldIsOnesSum(s, WordCount(|s|));
    assert WordCount(|s|) <= 0x8000_0000;
    WrapIsVisible(Total(s));
  }

  /** The loop that adds the carries back until none is left. */
  method FoldCarries(total: u32) returns (r: u16)
    ensures r == Fold(total)
  {
    var sum: u32 := total;
    while sum / M16 != 0
      invariant Fold(sum) == Fold(total)
      decreases sum
    {
      FoldStep(sum);
      sum := sum % M16 + sum / M16;
    }
    r := sum;
  }

  /** One addition on the wrapping accumulator. */
  lemma AddWord(s: seq<u8>, k: nat, sum: u32, wraps: nat, w: u16)
    requires k < WordCount(|s|) && w == WordAt(s, k) && WordSum(s, k) == sum + M32 * wraps
    ensures WordSum(s, k + 1) == Add32(sum, w) + M32 * (if sum + w < M32 then wraps else wraps + 1)
  {
  }

  /** The summing loop: a uint32_t accumulator, so every addition wraps at 2^32. */
  method Accumulate(data: array<u8>, len: u32) returns (sum: u32)
    requires len <= data.Length
    ensures sum == Total(data[..len]) % M32
  {
    hide Add32;
    ghost var s, k, wraps := data[..len], 0, 0;
    sum := 0;
    var i := 0;
    assert WordSum(s, 0) == 0;
    hide WordSum;
    while i + 1 < len
      invariant 0 <= i <= len && i == 2 * k && k <= WordCount(len)
      invariant WordSum(s, k) == sum + M32 * wraps
    {
      var w := Be16(data[i], data[i + 1]);
      AddWord(s, k, sum, wraps, w);
      wraps := if sum + w < M32 then wraps else wraps + 1;
      sum := Add32(sum, w);
      i, k := i + 2, k + 1;
    }
    if len % 2 == 1 {
      var w := Be16(data[len - 1], 0);
      AddWord(s, k, sum, wraps, w);
      wraps := if sum + w < M32 then wraps else wraps + 1;
      sum := Add32(sum, w);
    }
    WrapUnique(Total(s), wraps, sum);
  }

  /** The C function. */
  method InetCksum(data: array<u8>, len: u32) returns (r: u16)
    requires len <= data.Length
    ensures r == 0xffff - Fold(Total(data[..len]) % M32)
    ensures r == Cksum(data[..len]) <==> Total(data[..len]) < M32
  {
    var sum := Accumulate(data, len);
    sum := FoldCarries(sum);
    ChecksumExact(data[..len], sum);
    r := 0xffff - sum;
  }

  /** A wrapped accumulator always folds to a different value. */
  lemma WrapIsVisible(n: nat)
    requires n <= 0xffff * 0x8000_0000
    ensures Fold(n % M32) == Fold(n) <==> n < M32
  {
    var k, r := n / M32, n % M32;
    assert n == M32 * k + r;
    if n >= M32 && r > 0 && Fold(r) == Fold(n) {
      var p := FoldWitness(r);
      var q := FoldWitness(n);
      WrapsAre65535(k, r, Fold(r), p, q);
      assert false;
    }
  }

  /** 2^32 is 1 modulo 65535, so equal folds force a multiple of 65535 wraps. */
  lemma WrapsAre65535(k: int, r: int, f: int, p: int, q: int)
    requires r == f + 0xffff * p && M32 * k + r == f + 0xffff * q
    ensures k == 0xffff * (q - p - 0x10001 * k)
  {
  }

  /** For 131074 bytes or fewer no accumulator can wrap, and 131074 is the last such length:
      one more byte of 0xff on top of an all-0xff buffer wraps it. */
  lemma AccumulatorBound(len: nat)
    ensures (forall s: seq<u8> :: |s| == len ==> Total(s) < M32) <==> len <= 131074
  {
    if len <= 131074 {
      forall s: seq<u8> | |s| == len ensures Total(s) < M32 {
        assert WordCount(len) <= 65537;
      }
    } else {
      var s: seq<u8> := seq(len, i => 0xff);
      AllOnesSum(s, len / 2);
      SumGrows(s, len / 2, WordCount(len));
      if len % 2 == 0 {
        assert Total(s) >= 0xffff * 65538;
      } else {
        assert WordAt(s, len / 2) == 0xff00;
        assert Total(s) >= 0xffff * 65537 + 0xff00;
      }
      assert |s| == len && Total(s) >= M32;
    }
  }

  lemma {:induction false} AllOnesSum(s: seq<u8>, n: nat)
    requires 2 * n <= |s|
    requires forall i :: 0 <= i < |s| ==> s[i] == 0xff
    ensures WordSum(s, n) == 0xffff * n
  {
    if n > 0 {
      AllOnesSum(s, n - 1);
    }
  }

  lemma {:induction false} SumGrows(s: seq<u8>, m: nat, n: nat)
    requires m <= n <= WordCount(|s|)
    ensures WordSum(s, m) <= WordSum(s, n)
    decreases n
  {
    if m < n {
      SumGrows(s, m, n - 1);
    }
  }

  /** s with the checksum of s written big-endian at offset o. */
  function Sealed(s: seq<u8>, o: nat): (t: seq<u8>)
    requires o + 1 < |s|
  {
    s[o := Cksum(s) / 0x100][o + 1 := Cksum(s) % 0x100]
  }

  /** Filling a zeroed, even-aligned field with the checksum makes the whole buffer sum to all ones,
      which is what a receiver checks (section 1 of RFC 1071), for even and odd lengths. */
  lemma SealedVerifies(s: seq<u8>, o: nat)
    requires o % 2 == 0 && o + 1 < |s|
    requires s[o] == 0 && s[o + 1] == 0
    ensures Cksum(Sealed(s, o)) == 0
  {
    var w := WordCount(|s|);
    SealedSum(s, o, w);
    FoldIsOnesSum(s, w);
    FoldIsOnesSum(Sealed(s, o), w);
    FoldComplement(Total(s));
  }

  lemma {:induction false} SealedSum(s: seq<u8>, o: nat, n: nat)
    requires o % 2 == 0 && o + 1 < |s| && n <= WordCount(|s|)
    requires s[o] == 0 && s[o + 1] == 0
    ensures WordSum(Sealed(s, o), n) == WordSum(s, n) + if n > o / 2 then Cksum(s) else 0
  {
    if n > 0 {
      SealedSum(s, o, n - 1);
      if n - 1 == o / 2 {
        assert WordAt(Sealed(s, o), n - 1) == Cksum(s);
      } else {
        assert WordAt(Sealed(s, o), n - 1) == WordAt(s, n - 1);
      }
    }
  }

  lemma FoldComplement(n: nat)
    ensures Fold(n + (0xffff - Fold(n))) == 0xffff
  {
    if n > 0 {
      var q := FoldWitness(n);
      FoldUnique(0xffff, q);
    }
  }

  /** s as icmp_make_reply leaves it: type 0 and the checksum field filled. */
  function EchoReply(s: seq<u8>): seq<u8>
    requires |s| >= 8
  {
    Sealed(s[0 := 0][2 := 0][3 := 0], 2)
  }

  /** Turns an echo request into the reply in place. */
  method IcmpMakeReply(packet: array<u8>, len: u32)
    requires len <= packet.Length
    modifies packet
    ensures len < 8 ==> packet[..] == old(packet[..])
    ensures len >= 8 ==> forall i :: 0 <= i < packet.Length && i !in {0, 2, 3} ==> packet[i] == old(packet[i])
    ensures len >= 8 ==> packet[0] == 0
    ensures 8 <= len <= 131074 ==> packet[..len] == EchoReply(old(packet[..len])) && Cksum(packet[..len]) == 0
  {
    if len < 8 {
      return;
    }
    packet[0] := 0;
    packet[2] := 0;
    packet[3] := 0;
    ghost var cleared := packet[..len];
    assert cleared == old(packet[..len])[0 := 0][2 := 0][3 := 0];
    var ck := InetCksum(packet, len);
    packet[2] := ck / 0x100;
    packet[3] := ck % 0x100;
    if len <= 131074 {
      AccumulatorBound(len);
      assert packet[..len] == Sealed(cleared, 2);
      SealedVerifies(cleared, 2);
    }
  }
}
