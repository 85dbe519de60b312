/** The eight-entry ARP cache of net.c, against the unbounded table it approximates. */
module ArpCache {
  import opened Bytes

  const ETH_ARP_CACHE_SIZE: nat := 8

  datatype Entry = Entry(ip: Ip4, mac: Mac, valid: bool)
  datatype Learn = Learn(ip: Ip4, mac: Mac)

  /** First slot from i on that is free or already holds ip; the table size if there is none. */
  function Slot(t: seq<Entry>, ip: Ip4, i: nat): (r: nat)
    requires i <= |t|
    ensures i <= r <= |t|
    ensures r < |t| ==> !t[r].valid || t[r].ip == ip
    ensures forall k :: i <= k < r ==> t[k].valid && t[k].ip != ip
    decreases |t| - i
  {
    if i == |t| || !t[i].valid || t[i].ip == ip then i else Slot(t, ip, i + 1)
  }

  function Updated(t: seq<Entry>, u: Learn): (r: seq<Entry>)
    requires |t| == ETH_ARP_CACHE_SIZE
    ensures |r| == |t|
  {
    var k := Slot(t, u.ip, 0);
    t[(if k < |t| then k else 0) := Entry(u.ip, u.mac, true)]
  }

  /** The cache after a history of updates, starting from the zeroed array. */
  function After(h: seq<Learn>): (t: seq<Entry>)
    ensures |t| == ETH_ARP_CACHE_SIZE
  {
    if h == [] then seq(ETH_ARP_CACHE_SIZE, i => Entry([0, 0, 0, 0], [0, 0, 0, 0, 0, 0], false))
    else Updated(After(h[..|h| - 1]), h[|h| - 1])
  }

  /** The reference: an unbounded map, the latest update of an address winning. */
  function Learned(h: seq<Learn>): map<Ip4, Mac> {
    if h == [] then map[] else Learned(h[..|h| - 1])[h[|h| - 1].ip := h[|h| - 1].mac]
  }

  /** Valid entries are a prefix and have pairwise distinct addresses. */
  ghost predicate WellFormed(t: seq<Entry>) {
    && |t| == ETH_ARP_CACHE_SIZE
    && (forall i, j :: 0 <= i < j < |t| && t[j].valid ==> t[i].valid && t[i].ip != t[j].ip)
  }

  function Lookup(t: seq<Entry>, ip: Ip4): Option<Mac> {
    if t == [] then None
    else if t[0].valid && t[0].ip == ip then Some(t[0].mac)
    else Lookup(t[1..], ip)
  }

  /** Addresses the cache can answer for. */
  function Known(t: seq<Entry>): set<Ip4> {
    set i | 0 <= i < |t| && t[i].valid :: t[i].ip
  }

  /** Well-formedness over every history, and every cached MAC is the most recent one. */
  lemma {:induction false} HistoryInvariant(h: seq<Learn>)
    ensures WellFormed(After(h))
    ensures forall i :: 0 <= i < ETH_ARP_CACHE_SIZE && After(h)[i].valid ==>
      After(h)[i].ip in Learned(h) && After(h)[i].mac == Learned(h)[After(h)[i].ip]
  {
    if h != [] {
      HistoryInvariant(h[..|h| - 1]);
    }
  }

  lemma {:induction false} LookupFinds(t: seq<Entry>, i: nat)
    requires i < |t| && t[i].valid
    requires forall k :: 0 <= k < i ==> t[k].ip != t[i].ip
    ensures Lookup(t, t[i].ip) == Some(t[i].mac)
  {
    if i > 0 {
      LookupFinds(t[1..], i - 1);
    }
  }

  lemma {:induction false} LookupSound(t: seq<Entry>, ip: Ip4)
    ensures Lookup(t, ip).Some? ==> exists i :: 0 <= i < |t| && t[i].valid && t[i].ip == ip && t[i].mac == Lookup(t, ip).value
  {
    if t != [] && !(t[0].valid && t[0].ip == ip) {
      LookupSound(t[1..], ip);
      if Lookup(t, ip).Some? {
        var i :| 0 <= i < |t[1..]| && t[1..][i].valid && t[1..][i].ip == ip && t[1..][i].mac == Lookup(t, ip).value;
        assert t[i + 1].mac == Lookup(t, ip).value;
      }
    }
  }

  /** A hit is never stale: it is the MAC most recently learned for that address. */
  lemma HitIsLatest(h: seq<Learn>, ip: Ip4)
    ensures Lookup(After(h), ip).Some? ==> ip in Learned(h) && Lookup(After(h), ip).value == Learned(h)[ip]
    ensures Lookup(After(h), ip).Some? <==> ip in Known(After(h))
  {
    HistoryInvariant(h);
    LookupSound(After(h), ip);
    if ip in Known(After(h)) {
      var i :| 0 <= i < ETH_ARP_CACHE_SIZE && After(h)[i].valid && After(h)[i].ip == ip;
      LookupFinds(After(h), i);
    }
  }

  lemma KnownLast(t: seq<Entry>)
    requires t != []
    ensures Known(t) == Known(t[..|t| - 1]) + if t[|t| - 1].valid then {t[|t| - 1].ip} else {}
  {
    var p := t[..|t| - 1];
    forall ip | ip in Known(t) ensures ip in Known(p) || (t[|t| - 1].valid && ip == t[|t| - 1].ip) {
      var i :| 0 <= i < |t| && t[i].valid && t[i].ip == ip;
      if i < |p| {
        assert p[i] == t[i];
      }
    }
    forall ip | ip in Known(p) ensures ip in Known(t) {
      var i :| 0 <= i < |p| && p[i].valid && p[i].ip == ip;
      assert t[i] == p[i];
    }
  }

  /** Distinct addresses in the first n entries are counted once each. */
  lemma {:induction false} KnownCount(t: seq<Entry>, n: nat)
    requires n <= |t| && forall i :: 0 <= i < n ==> t[i].valid
    requires forall i, j :: 0 <= i < j < n ==> t[i].ip != t[j].ip
    ensures |Known(t[..n])| == n
  {
    if n > 0 {
      KnownCount(t, n - 1);
      KnownLast(t[..n]);
      assert t[..n][..n - 1] == t[..n - 1];
      assert t[n - 1].ip !in Known(t[..n - 1]);
    }
  }

  lemma {:induction false} KnownBounded(t: seq<Entry>)
    ensures |Known(t)| <= |t|
  {
    if t != [] {
      KnownBounded(t[..|t| - 1]);
      KnownLast(t);
    }
  }

  lemma {:induction false} LearnedGrows(h: seq<Learn>)
    requires h != []
    ensures Learned(h[..|h| - 1]).Keys <= Learned(h).Keys
    ensures |Learned(h[..|h| - 1]).Keys| <= |Learned(h).Keys|
  {
    Subset(Learned(h[..|h| - 1]).Keys, Learned(h).Keys);
  }

  lemma {:induction false} Subset<T>(a: set<T>, b: set<T>)
    requires a <= b
    ensures |a| <= |b|
  {
    if a != {} {
      var x :| x in a;
      Subset(a - {x}, b - {x});
    }
  }

  lemma {:induction false} CompleteUpToEight(h: seq<Learn>)
    requires |Learned(h).Keys| <= ETH_ARP_CACHE_SIZE
    ensures Known(After(h)) == Learned(h).Keys
  {
    if h != [] {
      var g, u := h[..|h| - 1], h[|h| - 1];
      LearnedGrows(h);
      CompleteUpToEight(g);
      HistoryInvariant(g);
      var t := After(g);
      var k := Slot(t, u.ip, 0);
      assert t[..|t|] == t;
      assert Learned(h).Keys == Known(t) + {u.ip};
      if k == |t| {
        // a full table without u.ip means a ninth address
        KnownCount(t, |t|);
        assert false;
      }
      UpdateAdds(t, u);
    }
  }

  lemma UpdateAdds(t: seq<Entry>, u: Learn)
    requires WellFormed(t) && Slot(t, u.ip, 0) < |t|
    ensures Known(Updated(t, u)) == Known(t) + {u.ip}
  {
    var k, r := Slot(t, u.ip, 0), Updated(t, u);
    forall ip | ip in Known(t) ensures ip in Known(r) {
      var i :| 0 <= i < |t| && t[i].valid && t[i].ip == ip;
      assert r[i].valid && r[i].ip == ip;
    }
    forall ip | ip in Known(r) && ip != u.ip ensures ip in Known(t) {
      var i :| 0 <= i < |r| && r[i].valid && r[i].ip == ip;
      assert t[i] == r[i];
    }
    assert r[k].ip == u.ip;
  }

  /** The cache answers exactly like the unbounded table if and only if at most eight addresses were ever learned. */
  lemma RefinesMap(h: seq<Learn>)
    ensures (forall ip: Ip4 :: Lookup(After(h), ip) == if ip in Learned(h) then Some(Learned(h)[ip]) else None)
      <==> |Learned(h).Keys| <= 8
  {
    if |Learned(h).Keys| <= ETH_ARP_CACHE_SIZE {
      CompleteUpToEight(h);
      forall ip: Ip4 ensures Lookup(After(h), ip) == if ip in Learned(h) then Some(Learned(h)[ip]) else None {
        HitIsLatest(h, ip);
      }
    } else if forall ip: Ip4 :: Lookup(After(h), ip) == if ip in Learned(h) then Some(Learned(h)[ip]) else None {
      forall ip | ip in Learned(h).Keys ensures ip in Known(After(h)) {
        HitIsLatest(h, ip);
      }
      Subset(Learned(h).Keys, Known(After(h)));
      KnownBounded(After(h));
    }
  }

  /** Whatever is learned later, only slot 0 can lose its address. */
  lemma {:induction false} OnlySlotZeroEvicted(h: seq<Learn>, more: seq<Learn>, i: nat)
    requires 1 <= i < ETH_ARP_CACHE_SIZE && After(h)[i].valid
    ensures After(h + more)[i].valid && After(h + more)[i].ip == After(h)[i].ip
    decreases |more|
  {
    if more == [] {
      assert h + more == h;
    } else {
      var n := |more| - 1;
      OnlySlotZeroEvicted(h, more[..n], i);
      assert (h + more)[..|h + more| - 1] == h + more[..n];
    }
  }

  class Cache {
    const eth_arp_cache: array<Entry>
    ghost var history: seq<Learn>

    ghost predicate Valid()
      reads this, eth_arp_cache
    {
      eth_arp_cache.Length == ETH_ARP_CACHE_SIZE && eth_arp_cache[..] == After(history)
    }

    constructor ()
      ensures Valid() && history == [] && fresh(eth_arp_cache)
    {
      eth_arp_cache := new Entry[ETH_ARP_CACHE_SIZE](i => Entry([0, 0, 0, 0], [0, 0, 0, 0, 0, 0], false));
      history := [];
    }

    method Update(ip: Ip4, mac: Mac)
      requires Valid()
      modifies this, eth_arp_cache
      ensures Valid() && history == old(history) + [Learn(ip, mac)]
    {
      ghost var t := eth_arp_cache[..];
      history := history + [Learn(ip, mac)];
      assert history[..|history| - 1] == old(history);
      var i := 0;
      while i < ETH_ARP_CACHE_SIZE
        invariant 0 <= i <= ETH_ARP_CACHE_SIZE
        invariant Slot(t, ip, 0) == Slot(t, ip, i)
        invariant eth_arp_cache[..] == t
      {
        if !eth_arp_cache[i].valid || eth_arp_cache[i].ip == ip {
          eth_arp_cache[i] := Entry(ip, mac, true);
          return;
        }
        i := i + 1;
      }
      eth_arp_cache[0] := Entry(ip, mac, true);
    }

    method Find(ip: Ip4) returns (mac: Option<Mac>)
      requires Valid()
      ensures mac == Lookup(After(history), ip)
      ensures mac.Some? ==> ip in Learned(history) && mac.value == Learned(history)[ip]
    {
      HitIsLatest(history, ip);
      var i := 0;
      while i < ETH_ARP_CACHE_SIZE
        invariant 0 <= i <= ETH_ARP_CACHE_SIZE
        invariant Lookup(eth_arp_cache[i..], ip) == Lookup(After(history), ip)
      {
        assert eth_arp_cache[i..][1..] == eth_arp_cache[i + 1..];
        if eth_arp_cache[i].valid && eth_arp_cache[i].ip == ip {
          return Some(eth_arp_cache[i].mac);
        }
        i := i + 1;
      }
      return None;
    }
  }
}
