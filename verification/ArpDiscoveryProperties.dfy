/** What the layer-2 stage finds, for any two cache snapshots and any captured packets. */
module ArpDiscoveryProperties {
  import opened Ipv4
  import opened Sequences
  import opened ArpDiscovery

  // Where the addresses come from

  lemma {:induction false} UsableIpsElements(candidates: seq<L2Observation>, ip: string)
    ensures ip in UsableIps(candidates) <==> !IsUninterestingAddress(ip) && ip in Ips(candidates)
  {
    hide IsUninterestingAddress;
    if candidates != [] {
      var n := |candidates| - 1;
      UsableIpsElements(candidates[..n], ip);
      assert Ips(candidates) == Ips(candidates[..n]) + [candidates[n].ip];
    }
  }

  lemma {:induction false} IpsNotOwn(observations: seq<L2Observation>, own: string, ip: string)
    ensures ip in Ips(NotOwn(observations, own)) <==> ip in Ips(observations) && ip != own
  {
    if observations != [] {
      var n := |observations| - 1;
      IpsNotOwn(observations[..n], own, ip);
      var front, last := NotOwn(observations[..n], own), observations[n];
      assert Ips(observations) == Ips(observations[..n]) + [last.ip];
      assert Ips(front + [last]) == Ips(front) + [last.ip];
    }
  }

  /** The entry is one of the adapter's for this address, reachable and with a MAC. */
  ghost predicate Shows(entry: NeighbourEntry, ifIndex: u32, ip: string) {
    && entry.ifIndex == ifIndex && entry.reachable && entry.ip == ip
    && entry.mac != "" && entry.mac != "00:00:00:00:00:00" && entry.mac != "00-00-00-00-00-00"
  }

  ghost predicate InCache(entries: seq<NeighbourEntry>, ifIndex: u32, ip: string) {
    exists k :: 0 <= k < |entries| && Shows(entries[k], ifIndex, ip)
  }

  ghost predicate IsFirstShown(entries: seq<NeighbourEntry>, ifIndex: u32, ip: string, k: int) {
    && 0 <= k < |entries| && Shows(entries[k], ifIndex, ip)
    && forall j :: 0 <= j < k ==> !Shows(entries[j], ifIndex, ip)
  }

  lemma {:induction false} FirstShown(entries: seq<NeighbourEntry>, ifIndex: u32, ip: string) returns (k: nat)
    requires InCache(entries, ifIndex, ip)
    ensures IsFirstShown(entries, ifIndex, ip, k)
  {
    var n := |entries| - 1;
    if InCache(entries[..n], ifIndex, ip) {
      k := FirstShown(entries[..n], ifIndex, ip);
    } else {
      k := n;
      forall j | 0 <= j < n ensures !Shows(entries[j], ifIndex, ip) {
        assert entries[..n][j] == entries[j];
      }
    }
  }

  ghost predicate InTraffic(packets: seq<seq<Byte>>, ip: string) {
    exists k :: 0 <= k < |packets| && ParseIpv4SourceAddress(packets[k]) == ip
  }

  lemma {:induction false} CacheIps(entries: seq<NeighbourEntry>, ifIndex: u32, ip: string)
    ensures ip in Ips(CacheCandidates(entries, ifIndex)) <==> InCache(entries, ifIndex, ip)
  {
    if entries != [] {
      var n := |entries| - 1;
      CacheIps(entries[..n], ifIndex, ip);
      var front, last := CacheCandidates(entries[..n], ifIndex), entries[n];
      var c := L2Observation(last.ip, last.mac, NeighbourCache);
      assert Ips(front + [c]) == Ips(front) + [last.ip];
      if InCache(entries[..n], ifIndex, ip) {
        var k :| 0 <= k < n && Shows(entries[..n][k], ifIndex, ip);
        assert Shows(entries[k], ifIndex, ip);
      }
      if InCache(entries, ifIndex, ip) {
        var k :| 0 <= k < |entries| && Shows(entries[k], ifIndex, ip);
        assert k < n ==> Shows(entries[..n][k], ifIndex, ip);
      }
    }
  }

  lemma {:induction false} TrafficIps(packets: seq<seq<Byte>>, own: string, ip: string)
    ensures ip in Ips(TrafficCandidates(packets, own)) <==> ip != "" && ip != own && InTraffic(packets, ip)
  {
    hide ParseIpv4SourceAddress;
    if packets != [] {
      var n := |packets| - 1;
      TrafficIps(packets[..n], own, ip);
      var front, source := TrafficCandidates(packets[..n], own), ParseIpv4SourceAddress(packets[n]);
      assert Ips(front + [L2Observation(source, "", Ipv4Traffic)]) == Ips(front) + [source];
      if InTraffic(packets[..n], ip) {
        var k :| 0 <= k < n && ParseIpv4SourceAddress(packets[..n][k]) == ip;
        assert ParseIpv4SourceAddress(packets[k]) == ip;
      }
      if InTraffic(packets, ip) {
        var k :| 0 <= k < |packets| && ParseIpv4SourceAddress(packets[k]) == ip;
        assert k < n ==> ParseIpv4SourceAddress(packets[..n][k]) == ip;
      }
    }
  }

  lemma PhaseIps(entries: seq<NeighbourEntry>, ifIndex: u32, own: string, ip: string)
    requires !IsUninterestingAddress(ip)
    ensures ip in Ips(CachePhase(entries, ifIndex, own)) <==> ip != own && InCache(entries, ifIndex, ip)
  {
    hide IsUninterestingAddress;
    hide IsZeroMac;
    var cache := CacheCandidates(entries, ifIndex);
    MergedList(cache);
    DistinctElements(UsableIps(cache));
    assert ip in Distinct(UsableIps(cache)) <==> ip in UsableIps(cache);
    UsableIpsElements(cache, ip);
    CacheIps(entries, ifIndex, ip);
    IpsNotOwn(AddedAll([], cache), own, ip);
  }

  lemma IpsConcat(a: seq<L2Observation>, b: seq<L2Observation>)
    ensures Ips(a + b) == Ips(a) + Ips(b)
  {
  }

  /** Each address is listed once, in first-seen order, and the listed ones are exactly those that either
      snapshot or the traffic showed, apart from the own address and those that cannot be a device. */
  lemma DiscoveredAddresses(link: Link, ip: string)
    ensures Ips(Discovered(link)) == Distinct(UsableIps(Candidates(link)))
    ensures NoDuplicates(Ips(Discovered(link)))
    ensures ip in Ips(Discovered(link)) <==>
      && !IsUninterestingAddress(ip) && ip != link.own
      && (InCache(link.before, link.ifIndex, ip) || InTraffic(link.packets, ip)
          || InCache(link.after, link.ifIndex, ip))
  {
    MergedList(Candidates(link));
    DistinctElements(UsableIps(Candidates(link)));
    UsableIpsElements(Candidates(link), ip);
    if !IsUninterestingAddress(ip) {
      hide IsUninterestingAddress;
      var a := CachePhase(link.before, link.ifIndex, link.own);
      var b := TrafficCandidates(link.packets, link.own);
      var c := CachePhase(link.after, link.ifIndex, link.own);
      IpsConcat(a + b, c);
      IpsConcat(a, b);
      PhaseIps(link.before, link.ifIndex, link.own, ip);
      TrafficIps(link.packets, link.own, ip);
      PhaseIps(link.after, link.ifIndex, link.own, ip);
      assert ip != "" by { UsableIsNotEmpty(ip); }
    }
  }

  lemma UsableIsNotEmpty(ip: string)
    requires !IsUninterestingAddress(ip)
    ensures ip != ""
  {
  }

  // Where the MACs come from

  /** Later candidates only append entries and fill in zero MACs; everything else stays. */
  lemma {:induction false} OnlyZeroMacsChange(observations: seq<L2Observation>, more: seq<L2Observation>)
    ensures |observations| <= |AddedAll(observations, more)|
    ensures forall i :: 0 <= i < |observations| ==>
      && AddedAll(observations, more)[i].ip == observations[i].ip
      && AddedAll(observations, more)[i].source == observations[i].source
      && (!IsZeroMac(observations[i].mac) ==> AddedAll(observations, more)[i].mac == observations[i].mac)
  {
    hide IsUninterestingAddress;
    if more != [] {
      OnlyZeroMacsChange(observations, more[..|more| - 1]);
    }
  }

  lemma {:induction false} MacOffered(candidates: seq<L2Observation>, k: nat)
    requires k < |candidates|
    ensures candidates[k].mac in MacsFor(candidates, candidates[k].ip)
  {
    var n := |candidates| - 1;
    if k < n {
      MacOffered(candidates[..n], k);
    }
  }

  /** An entry ends with a non-zero MAC exactly when some phase offered one for its address. */
  lemma MacKnownIffOffered(candidates: seq<L2Observation>, i: nat)
    requires i < |AddedAll([], candidates)|
    ensures var o := AddedAll([], candidates)[i];
            !IsZeroMac(o.mac) <==> exists m :: m in MacsFor(candidates, o.ip) && !IsZeroMac(m)
  {
    MergedList(candidates);
    ResolvedMeaning(MacsFor(candidates, AddedAll([], candidates)[i].ip));
  }

  lemma {:induction false} CacheMacsNonZero(entries: seq<NeighbourEntry>, ifIndex: u32)
    ensures forall k :: 0 <= k < |CacheCandidates(entries, ifIndex)| ==>
      !IsZeroMac(CacheCandidates(entries, ifIndex)[k].mac)
  {
    hide IsZeroMac;
    if entries != [] {
      CacheMacsNonZero(entries[..|entries| - 1], ifIndex);
    }
  }

  lemma {:induction false} OfferedMacsNonZero(candidates: seq<L2Observation>, ip: string)
    requires forall k :: 0 <= k < |candidates| ==> !IsZeroMac(candidates[k].mac)
    ensures forall m :: m in MacsFor(candidates, ip) ==> !IsZeroMac(m)
  {
    hide IsZeroMac;
    if candidates != [] {
      OfferedMacsNonZero(candidates[..|candidates| - 1], ip);
    }
  }

  /** A cache phase never hands on a zero MAC. */
  lemma SelectedMacsNonZero(entries: seq<NeighbourEntry>, ifIndex: u32, i: nat)
    requires i < |AddedAll([], CacheCandidates(entries, ifIndex))|
    ensures !IsZeroMac(AddedAll([], CacheCandidates(entries, ifIndex))[i].mac)
  {
    var cache := CacheCandidates(entries, ifIndex);
    CacheMacsNonZero(entries, ifIndex);
    MergedList(cache);
    var macs := MacsFor(cache, AddedAll([], cache)[i].ip);
    OfferedMacsNonZero(cache, AddedAll([], cache)[i].ip);
    ResolvedMeaning(macs);
  }

  lemma {:induction false} NotOwnKeepsEntries(observations: seq<L2Observation>, own: string)
    ensures forall o :: o in NotOwn(observations, own) ==> o in observations
  {
    if observations != [] {
      NotOwnKeepsEntries(observations[..|observations| - 1], own);
    }
  }

  /** Every address that the second snapshot resolves ends with a non-zero MAC. */
  lemma SecondSnapshotResolves(link: Link, ip: string) returns (i: nat)
    requires InCache(link.after, link.ifIndex, ip) && !IsUninterestingAddress(ip) && ip != link.own
    ensures i < |Discovered(link)| && Discovered(link)[i].ip == ip
    ensures var mac := Discovered(link)[i].mac;
            mac != "" && mac != "00:00:00:00:00:00" && mac != "00-00-00-00-00-00"
  {
    hide *;
    DiscoveredAddresses(link, ip);
    var all := Candidates(link);
    i := PositionOfIp(Discovered(link), ip);
    var k := OfferOfSecondSnapshot(link, ip);
    MacOffered(all, k);
    assert all[k].mac in MacsFor(all, ip);
    EntryHasOfferedMac(link, i, all[k].mac);
    NonZeroMac(Discovered(link)[i].mac);
  }

  lemma NonZeroMac(mac: string)
    requires !IsZeroMac(mac)
    ensures mac != "" && mac != "00:00:00:00:00:00" && mac != "00-00-00-00-00-00"
  {
  }

  lemma EntryHasOfferedMac(link: Link, i: nat, mac: string)
    requires i < |Discovered(link)| && mac in MacsFor(Candidates(link), Discovered(link)[i].ip) && !IsZeroMac(mac)
    ensures !IsZeroMac(Discovered(link)[i].mac)
  {
    hide IsZeroMac;
    MacKnownIffOffered(Candidates(link), i);
  }

  lemma PositionOfIp(observations: seq<L2Observation>, ip: string) returns (i: nat)
    requires ip in Ips(observations)
    ensures i < |observations| && observations[i].ip == ip
  {
    i :| 0 <= i < |observations| && Ips(observations)[i] == ip;
  }

  lemma OfferOfSecondSnapshot(link: Link, ip: string) returns (k: nat)
    requires InCache(link.after, link.ifIndex, ip) && !IsUninterestingAddress(ip) && ip != link.own
    ensures k < |Candidates(link)| && Candidates(link)[k].ip == ip && !IsZeroMac(Candidates(link)[k].mac)
  {
    hide *;
    var kept := CachePhase(link.after, link.ifIndex, link.own);
    PhaseIps(link.after, link.ifIndex, link.own, ip);
    var j := PositionOfIp(kept, ip);
    PhaseMacsNonZero(link, j);
    k := LastPhase(link, j);
  }

  lemma PhaseMacsNonZero(link: Link, j: nat)
    requires j < |CachePhase(link.after, link.ifIndex, link.own)|
    ensures !IsZeroMac(CachePhase(link.after, link.ifIndex, link.own)[j].mac)
  {
    hide IsZeroMac;
    var selected := AddedAll([], CacheCandidates(link.after, link.ifIndex));
    NotOwnKeepsEntries(selected, link.own);
    assert NotOwn(selected, link.own)[j] in selected;
    var l :| 0 <= l < |selected| && selected[l] == NotOwn(selected, link.own)[j];
    SelectedMacsNonZero(link.after, link.ifIndex, l);
  }

  lemma LastPhase(link: Link, j: nat) returns (k: nat)
    requires j < |CachePhase(link.after, link.ifIndex, link.own)|
    ensures k < |Candidates(link)| && Candidates(link)[k] == CachePhase(link.after, link.ifIndex, link.own)[j]
  {
    hide CachePhase;
    hide TrafficCandidates;
    k := |Candidates(link)| - |CachePhase(link.after, link.ifIndex, link.own)| + j;
  }

  // What each entry says

  /** A well-formed header begins with version 4 and a length of 20 to 60 bytes that are all there; bytes 12 to
      15 are the address, the first one the most significant. */
  lemma SourceAddress(packet: seq<Byte>)
    ensures var wellFormed := |packet| >= 20 && 0x45 <= packet[0] <= 0x4F && 4 * (packet[0] - 0x40) <= |packet|;
            && (!wellFormed ==> ParseIpv4SourceAddress(packet) == "")
            && (wellFormed ==>
                  var a: int, b: int, c: int, d: int := packet[12], packet[13], packet[14], packet[15];
                  ParseIpv4SourceAddress(packet) == InetNtop(0x100_0000 * a + 0x1_0000 * b + 0x100 * c + d))
  {
    hide InetNtop;
  }

  lemma {:induction false} CacheOffers(entries: seq<NeighbourEntry>, ifIndex: u32, ip: string)
    ensures var cache := CacheCandidates(entries, ifIndex);
            && (MacsFor(cache, ip) == [] <==> !InCache(entries, ifIndex, ip))
            && (forall k :: IsFirstShown(entries, ifIndex, ip, k) ==>
                  MacsFor(cache, ip) != [] && MacsFor(cache, ip)[0] == entries[k].mac)
            && (MacsFor(cache, ip) != [] ==> FirstSource(cache, ip) == NeighbourCache)
  {
    if entries != [] {
      var n := |entries| - 1;
      var front, last := entries[..n], entries[n];
      CacheOffers(front, ifIndex, ip);
      CacheStep(entries, ifIndex, ip);
      SnapshotStep(entries, ifIndex, ip);
    }
  }

  lemma CacheStep(entries: seq<NeighbourEntry>, ifIndex: u32, ip: string)
    requires entries != []
    ensures var n := |entries| - 1;
            var cache, front := CacheCandidates(entries, ifIndex), CacheCandidates(entries[..n], ifIndex);
            && MacsFor(cache, ip)
               == MacsFor(front, ip) + (if Shows(entries[n], ifIndex, ip) then [entries[n].mac] else [])
            && (MacsFor(cache, ip) != [] ==>
                  FirstSource(cache, ip) == if MacsFor(front, ip) != [] then FirstSource(front, ip) else NeighbourCache)
  {
    var n := |entries| - 1;
    var front, last := CacheCandidates(entries[..n], ifIndex), entries[n];
    if IsSelected(last, ifIndex) {
      var c := L2Observation(last.ip, last.mac, NeighbourCache);
      assert (front + [c])[..|front|] == front;
    }
  }

  lemma SnapshotStep(entries: seq<NeighbourEntry>, ifIndex: u32, ip: string)
    requires entries != []
    ensures var n := |entries| - 1;
            && (InCache(entries, ifIndex, ip) <==> InCache(entries[..n], ifIndex, ip) || Shows(entries[n], ifIndex, ip))
            && (forall k :: IsFirstShown(entries, ifIndex, ip, k) ==>
                  if k < n then IsFirstShown(entries[..n], ifIndex, ip, k) else !InCache(entries[..n], ifIndex, ip))
  {
    hide Shows;
    var n := |entries| - 1;
    assert forall j :: 0 <= j < n ==> entries[..n][j] == entries[j];
    if InCache(entries[..n], ifIndex, ip) {
      var j :| 0 <= j < n && Shows(entries[..n][j], ifIndex, ip);
      assert Shows(entries[j], ifIndex, ip);
    }
    if InCache(entries, ifIndex, ip) {
      var j :| 0 <= j < |entries| && Shows(entries[j], ifIndex, ip);
      assert j < n ==> Shows(entries[..n][j], ifIndex, ip);
    }
  }

  /** Each selected observation comes from the cache, with the MAC of the adapter's first reachable and
      resolved entry for its address. */
  lemma SelectedEntries(entries: seq<NeighbourEntry>, ifIndex: u32, i: nat) returns (k: nat)
    requires i < |AddedAll([], CacheCandidates(entries, ifIndex))|
    ensures var o := AddedAll([], CacheCandidates(entries, ifIndex))[i];
            && IsFirstShown(entries, ifIndex, o.ip, k)
            && o == L2Observation(entries[k].ip, entries[k].mac, NeighbourCache)
  {
    hide IsUninterestingAddress, IsZeroMac, CacheCandidates, Added, AddedAll;
    var cache := CacheCandidates(entries, ifIndex);
    var o := AddedAll([], cache)[i];
    MergedList(cache);
    CacheOffers(entries, ifIndex, o.ip);
    CacheMacsNonZero(entries, ifIndex);
    OfferedMacsNonZero(cache, o.ip);
    k := FirstShown(entries, ifIndex, o.ip);
    assert MacsFor(cache, o.ip)[0] in MacsFor(cache, o.ip);
  }

  lemma {:induction false} OffersConcat(a: seq<L2Observation>, b: seq<L2Observation>, ip: string)
    ensures MacsFor(a + b, ip) == MacsFor(a, ip) + MacsFor(b, ip)
    ensures MacsFor(a + b, ip) != [] ==>
      FirstSource(a + b, ip) == if MacsFor(a, ip) != [] then FirstSource(a, ip) else FirstSource(b, ip)
  {
    if b == [] {
      assert a + b == a;
    } else {
      var n := |b| - 1;
      assert (a + b)[..|a + b| - 1] == a + b[..n];
      OffersConcat(a, b[..n], ip);
    }
  }

  /** A list without repetitions offers one MAC for each of its addresses. */
  lemma {:induction false} OnlyOffer(observations: seq<L2Observation>, i: nat)
    requires i < |observations|
    requires forall j :: 0 <= j < |observations| && j != i ==> observations[j].ip != observations[i].ip
    ensures MacsFor(observations, observations[i].ip) == [observations[i].mac]
    ensures FirstSource(observations, observations[i].ip) == observations[i].source
  {
    var n := |observations| - 1;
    if i < n {
      OnlyOffer(observations[..n], i);
    } else {
      NoOffer(observations[..n], observations[n].ip);
    }
  }

  lemma {:induction false} NoOffer(observations: seq<L2Observation>, ip: string)
    requires forall j :: 0 <= j < |observations| ==> observations[j].ip != ip
    ensures MacsFor(observations, ip) == []
  {
    if observations != [] {
      NoOffer(observations[..|observations| - 1], ip);
    }
  }

  lemma {:induction false} NotOwnOffers(observations: seq<L2Observation>, own: string, ip: string)
    requires ip != own
    ensures MacsFor(NotOwn(observations, own), ip) == MacsFor(observations, ip)
    ensures MacsFor(observations, ip) != [] ==>
      FirstSource(NotOwn(observations, own), ip) == FirstSource(observations, ip)
  {
    if observations != [] {
      var n := |observations| - 1;
      var front, last := NotOwn(observations[..n], own), observations[n];
      NotOwnOffers(observations[..n], own, ip);
      assert (front + [last])[..|front|] == front;
    }
  }

  /** What a cache phase offers for an address that can be a device: the MAC of the first entry showing it. */
  lemma PhaseOffers(entries: seq<NeighbourEntry>, ifIndex: u32, own: string, ip: string)
    requires !IsUninterestingAddress(ip) && ip != own
    ensures var phase := CachePhase(entries, ifIndex, own);
            && (!InCache(entries, ifIndex, ip) ==> MacsFor(phase, ip) == [])
            && (forall k :: IsFirstShown(entries, ifIndex, ip, k) ==> MacsFor(phase, ip) == [entries[k].mac])
            && (MacsFor(phase, ip) != [] ==> FirstSource(phase, ip) == NeighbourCache)
  {
    hide *;
    var selected := AddedAll([], CacheCandidates(entries, ifIndex));
    PhaseIsNotOwn(entries, ifIndex, own);
    NotOwnOffers(selected, own, ip);
    SelectedIps(entries, ifIndex, ip);
    if InCache(entries, ifIndex, ip) {
      var i := PositionOfIp(selected, ip);
      var k := SelectedEntries(entries, ifIndex, i);
      SelectedOnce(entries, ifIndex, i);
      OnlyOffer(selected, i);
      OneFirst(entries, ifIndex, ip, k);
    } else {
      AbsentIp(selected, ip);
      NoOffer(selected, ip);
      NeverFirst(entries, ifIndex, ip);
    }
  }

  lemma PhaseIsNotOwn(entries: seq<NeighbourEntry>, ifIndex: u32, own: string)
    ensures CachePhase(entries, ifIndex, own) == NotOwn(AddedAll([], CacheCandidates(entries, ifIndex)), own)
  {
  }

  lemma AbsentIp(observations: seq<L2Observation>, ip: string)
    requires ip !in Ips(observations)
    ensures forall j :: 0 <= j < |observations| ==> observations[j].ip != ip
  {
    assert forall j :: 0 <= j < |observations| ==> Ips(observations)[j] == observations[j].ip;
  }

  lemma OneFirst(entries: seq<NeighbourEntry>, ifIndex: u32, ip: string, k: nat)
    requires IsFirstShown(entries, ifIndex, ip, k)
    ensures forall l :: IsFirstShown(entries, ifIndex, ip, l) ==> l == k
  {
  }

  lemma NeverFirst(entries: seq<NeighbourEntry>, ifIndex: u32, ip: string)
    requires !InCache(entries, ifIndex, ip)
    ensures forall k :: !IsFirstShown(entries, ifIndex, ip, k)
  {
  }

  lemma SelectedIps(entries: seq<NeighbourEntry>, ifIndex: u32, ip: string)
    requires !IsUninterestingAddress(ip)
    ensures ip in Ips(AddedAll([], CacheCandidates(entries, ifIndex))) <==> InCache(entries, ifIndex, ip)
  {
    hide IsUninterestingAddress, CacheCandidates, AddedAll;
    var cache := CacheCandidates(entries, ifIndex);
    MergedList(cache);
    DistinctElements(UsableIps(cache));
    UsableIpsElements(cache, ip);
    CacheIps(entries, ifIndex, ip);
  }

  lemma SelectedOnce(entries: seq<NeighbourEntry>, ifIndex: u32, i: nat)
    requires i < |AddedAll([], CacheCandidates(entries, ifIndex))|
    ensures var selected := AddedAll([], CacheCandidates(entries, ifIndex));
            forall j :: 0 <= j < |selected| && j != i ==> selected[j].ip != selected[i].ip
  {
    MergedList(CacheCandidates(entries, ifIndex));
    OnlyEntryForIp(AddedAll([], CacheCandidates(entries, ifIndex)), CacheCandidates(entries, ifIndex), i);
  }

  /** What the traffic offers: no MAC, for the addresses it showed. */
  lemma {:induction false} TrafficOffers(packets: seq<seq<Byte>>, own: string, ip: string)
    ensures var traffic := TrafficCandidates(packets, own);
            && (forall m :: m in MacsFor(traffic, ip) ==> m == "")
            && (MacsFor(traffic, ip) != [] ==> FirstSource(traffic, ip) == Ipv4Traffic)
            && (MacsFor(traffic, ip) != [] <==> ip in Ips(traffic))
  {
    hide ParseIpv4SourceAddress;
    if packets != [] {
      var n := |packets| - 1;
      var front, source := TrafficCandidates(packets[..n], own), ParseIpv4SourceAddress(packets[n]);
      var c := L2Observation(source, "", Ipv4Traffic);
      TrafficOffers(packets[..n], own, ip);
      assert (front + [c])[..|front|] == front;
      assert Ips(front + [c]) == Ips(front) + [source];
    }
  }

  lemma {:induction false} ResolvedAfterNone(none: seq<string>, macs: seq<string>)
    requires forall m :: m in none ==> m == ""
    requires |macs| <= 1 && none + macs != []
    ensures Resolved(none + macs) == if macs == [] then "" else macs[0]
  {
    if none == [] {
      assert none + macs == macs;
    } else {
      assert none[0] in none && forall m :: m in none[1..] ==> m in none;
      assert (none + macs)[1..] == none[1..] + macs;
      if |none + macs| > 1 {
        ResolvedAfterNone(none[1..], macs);
      }
    }
  }

  /** The entry is what the link showed. If the first snapshot showed the address, the first of its entries
      gives the MAC and the cache is the source. Otherwise the source is the traffic if that showed it, and
      the MAC is that of the first entry of the second snapshot, or none. */
  ghost predicate IsAsShown(link: Link, o: L2Observation) {
    && (forall k :: IsFirstShown(link.before, link.ifIndex, o.ip, k) ==>
          o.mac == link.before[k].mac && o.source == NeighbourCache)
    && (!InCache(link.before, link.ifIndex, o.ip) ==>
          && o.source == (if InTraffic(link.packets, o.ip) then Ipv4Traffic else NeighbourCache)
          && (forall k :: IsFirstShown(link.after, link.ifIndex, o.ip, k) ==> o.mac == link.after[k].mac)
          && (!InCache(link.after, link.ifIndex, o.ip) ==> o.mac == ""))
  }

  lemma DiscoveredEntries(link: Link, i: nat)
    requires i < |Discovered(link)|
    ensures IsAsShown(link, Discovered(link)[i])
  {
    hide *;
    var o := Discovered(link)[i];
    var ip := o.ip;
    EntryOfDiscovered(link, i);
    var a := CachePhase(link.before, link.ifIndex, link.own);
    var b := TrafficCandidates(link.packets, link.own);
    var c := CachePhase(link.after, link.ifIndex, link.own);
    PhaseOffers(link.before, link.ifIndex, link.own, ip);
    TrafficOffers(link.packets, link.own, ip);
    TrafficIps(link.packets, link.own, ip);
    PhaseOffers(link.after, link.ifIndex, link.own, ip);
    OffersConcat(a + b, c, ip);
    OffersConcat(a, b, ip);
    var macs := MacsFor(b, ip) + MacsFor(c, ip);
    assert MacsFor(a + b + c, ip) == MacsFor(a, ip) + macs;
    if InCache(link.before, link.ifIndex, ip) {
      var k := FirstShown(link.before, link.ifIndex, ip);
      OneFirst(link.before, link.ifIndex, ip, k);
      ShownMacIsKnown(link.before, link.ifIndex, ip, k);
      KnownMacStays(link.before[k].mac, macs);
      AsShownBefore(link, o, k);
    } else {
      assert MacsFor(a, ip) + macs == macs;
      if InCache(link.after, link.ifIndex, ip) {
        var k := FirstShown(link.after, link.ifIndex, ip);
        OneFirst(link.after, link.ifIndex, ip, k);
      }
      NeverFirst(link.before, link.ifIndex, ip);
      ResolvedAfterNone(MacsFor(b, ip), MacsFor(c, ip));
      AsShownLater(link, o, MacsFor(c, ip));
    }
  }

  lemma EntryOfDiscovered(link: Link, i: nat)
    requires i < |Discovered(link)|
    ensures var o := Discovered(link)[i];
            var all := CachePhase(link.before, link.ifIndex, link.own) + TrafficCandidates(link.packets, link.own)
                       + CachePhase(link.after, link.ifIndex, link.own);
            && !IsUninterestingAddress(o.ip) && o.ip != link.own && o.ip != ""
            && MacsFor(all, o.ip) != [] && o.mac == Resolved(MacsFor(all, o.ip)) && o.source == FirstSource(all, o.ip)
  {
    hide IsUninterestingAddress, CachePhase, TrafficCandidates, AddedAll;
    var o := Discovered(link)[i];
    MergedList(Candidates(link));
    assert Ips(Discovered(link))[i] == o.ip;
    DiscoveredAddresses(link, o.ip);
    UsableIsNotEmpty(o.ip);
  }

  lemma ShownMacIsKnown(entries: seq<NeighbourEntry>, ifIndex: u32, ip: string, k: nat)
    requires IsFirstShown(entries, ifIndex, ip, k)
    ensures !IsZeroMac(entries[k].mac)
  {
  }

  lemma KnownMacStays(mac: string, macs: seq<string>)
    requires !IsZeroMac(mac)
    ensures Resolved([mac] + macs) == mac
  {
    hide IsZeroMac;
  }

  lemma AsShownBefore(link: Link, o: L2Observation, k: nat)
    requires InCache(link.before, link.ifIndex, o.ip)
    requires forall l :: IsFirstShown(link.before, link.ifIndex, o.ip, l) ==> l == k
    requires k < |link.before| && o.mac == link.before[k].mac && o.source == NeighbourCache
    ensures IsAsShown(link, o)
  {
    hide IsFirstShown, InCache, InTraffic;
  }

  lemma AsShownLater(link: Link, o: L2Observation, macs: seq<string>)
    requires !InCache(link.before, link.ifIndex, o.ip)
    requires forall k :: !IsFirstShown(link.before, link.ifIndex, o.ip, k)
    requires o.source == if InTraffic(link.packets, o.ip) then Ipv4Traffic else NeighbourCache
    requires forall k :: IsFirstShown(link.after, link.ifIndex, o.ip, k) ==> macs == [link.after[k].mac]
    requires !InCache(link.after, link.ifIndex, o.ip) ==> macs == []
    requires o.mac == if macs == [] then "" else macs[0]
    ensures IsAsShown(link, o)
  {
    hide InCache, InTraffic;
  }

  // The order

  /** What the snapshot shows, entry by entry; an entry that shows nothing counts as the empty text. */
  ghost function CacheEvents(entries: seq<NeighbourEntry>, ifIndex: u32): seq<string> {
    seq(|entries|, k requires 0 <= k < |entries| =>
      if Shows(entries[k], ifIndex, entries[k].ip) then entries[k].ip else "")
  }

  ghost function TrafficEvents(packets: seq<seq<Byte>>): seq<string> {
    seq(|packets|, k requires 0 <= k < |packets| => ParseIpv4SourceAddress(packets[k]))
  }

  /** Everything the link shows during a discovery, in the order of time. */
  ghost function Events(link: Link): seq<string> {
    CacheEvents(link.before, link.ifIndex) + TrafficEvents(link.packets) + CacheEvents(link.after, link.ifIndex)
  }

  /** The addresses among the events that can be another device. */
  ghost function Devices(events: seq<string>, own: string): seq<string> {
    if events == [] then []
    else
      var last, front := events[|events| - 1], Devices(events[..|events| - 1], own);
      if IsUninterestingAddress(last) || last == own then front else front + [last]
  }

  lemma {:induction false} DevicesConcat(a: seq<string>, b: seq<string>, own: string)
    ensures Devices(a + b, own) == Devices(a, own) + Devices(b, own)
  {
    hide IsUninterestingAddress;
    if b == [] {
      assert a + b == a;
    } else {
      var n := |b| - 1;
      assert (a + b)[..|a + b| - 1] == a + b[..n];
      DevicesConcat(a, b[..n], own);
    }
  }

  lemma {:induction false} UsableIpsConcat(a: seq<L2Observation>, b: seq<L2Observation>)
    ensures UsableIps(a + b) == UsableIps(a) + UsableIps(b)
  {
    hide IsUninterestingAddress;
    if b == [] {
      assert a + b == a;
    } else {
      var n := |b| - 1;
      assert (a + b)[..|a + b| - 1] == a + b[..n];
      UsableIpsConcat(a, b[..n]);
    }
  }

  lemma {:induction false} TrafficDevices(packets: seq<seq<Byte>>, own: string)
    ensures UsableIps(TrafficCandidates(packets, own)) == Devices(TrafficEvents(packets), own)
  {
    hide ParseIpv4SourceAddress, IsUninterestingAddress;
    if packets != [] {
      var n := |packets| - 1;
      var front, source := TrafficCandidates(packets[..n], own), ParseIpv4SourceAddress(packets[n]);
      TrafficDevices(packets[..n], own);
      assert TrafficEvents(packets)[..n] == TrafficEvents(packets[..n]);
      assert (front + [L2Observation(source, "", Ipv4Traffic)])[..|front|] == front;
      assert IsUninterestingAddress("") by { EmptyIsUninteresting(); }
    }
  }

  lemma EmptyIsUninteresting()
    ensures IsUninterestingAddress("")
  {
  }

  /** The text with every occurrence of the own address left out. */
  ghost function Others(ips: seq<string>, own: string): seq<string> {
    if ips == [] then []
    else
      var last, front := ips[|ips| - 1], Others(ips[..|ips| - 1], own);
      if last == own then front else front + [last]
  }

  lemma {:induction false} OthersElements(ips: seq<string>, own: string)
    ensures forall x :: x in Others(ips, own) <==> x in ips && x != own
  {
    if ips != [] {
      OthersElements(ips[..|ips| - 1], own);
      assert ips == ips[..|ips| - 1] + [ips[|ips| - 1]];
    }
  }

  lemma {:induction false} OthersDistinct(ips: seq<string>, own: string)
    ensures Others(Distinct(ips), own) == Distinct(Others(ips, own))
  {
    if ips != [] {
      var front, last := ips[..|ips| - 1], ips[|ips| - 1];
      OthersDistinct(front, own);
      DistinctElements(Others(front, own));
      DistinctElements(front);
      OthersElements(front, own);
      DistinctSnoc(Others(front, own), last);
      assert (Distinct(front) + [last])[..|Distinct(front)|] == Distinct(front);
    }
  }

  lemma {:induction false} CacheDevices(entries: seq<NeighbourEntry>, ifIndex: u32, own: string)
    ensures Others(UsableIps(CacheCandidates(entries, ifIndex)), own) == Devices(CacheEvents(entries, ifIndex), own)
  {
    hide IsUninterestingAddress;
    if entries != [] {
      var n := |entries| - 1;
      var front, last := CacheCandidates(entries[..n], ifIndex), entries[n];
      CacheDevices(entries[..n], ifIndex, own);
      assert CacheEvents(entries, ifIndex)[..n] == CacheEvents(entries[..n], ifIndex);
      assert (front + [L2Observation(last.ip, last.mac, NeighbourCache)])[..|front|] == front;
      var ips := UsableIps(front);
      assert (ips + [last.ip])[..|ips|] == ips;
      assert IsUninterestingAddress("") by { EmptyIsUninteresting(); }
    }
  }

  lemma {:induction false} UsableNotOwn(observations: seq<L2Observation>, own: string)
    ensures UsableIps(NotOwn(observations, own)) == Others(UsableIps(observations), own)
  {
    hide IsUninterestingAddress;
    if observations != [] {
      var n := |observations| - 1;
      var front, last := NotOwn(observations[..n], own), observations[n];
      UsableNotOwn(observations[..n], own);
      assert (front + [last])[..|front|] == front;
      var ips := UsableIps(observations[..n]);
      assert (ips + [last.ip])[..|ips|] == ips;
    }
  }

  lemma {:induction false} AllUsable(observations: seq<L2Observation>)
    requires forall i :: 0 <= i < |observations| ==> !IsUninterestingAddress(observations[i].ip)
    ensures UsableIps(observations) == Ips(observations)
  {
    hide IsUninterestingAddress;
    if observations != [] {
      var n := |observations| - 1;
      AllUsable(observations[..n]);
      assert Ips(observations) == Ips(observations[..n]) + [observations[n].ip];
    }
  }

  lemma PhaseDevices(entries: seq<NeighbourEntry>, ifIndex: u32, own: string)
    ensures UsableIps(CachePhase(entries, ifIndex, own)) == Distinct(Devices(CacheEvents(entries, ifIndex), own))
  {
    hide IsUninterestingAddress, CacheCandidates, AddedAll, UsableIps, Devices;
    var cache := CacheCandidates(entries, ifIndex);
    var selected := AddedAll([], cache);
    MergedList(cache);
    DistinctElements(UsableIps(cache));
    forall i | 0 <= i < |selected| ensures !IsUninterestingAddress(selected[i].ip) {
      assert Ips(selected)[i] == selected[i].ip;
      UsableIpsAreUsable(cache, selected[i].ip);
    }
    AllUsable(selected);
    UsableNotOwn(selected, own);
    OthersDistinct(UsableIps(cache), own);
    CacheDevices(entries, ifIndex, own);
  }

  /** The addresses found are the devices among the events, each at its first occurrence. */
  lemma FoundAsSeen(link: Link)
    ensures Ips(Discovered(link)) == Distinct(Devices(Events(link), link.own))
  {
    hide *;
    var a := CacheEvents(link.before, link.ifIndex);
    var b := TrafficEvents(link.packets);
    var c := CacheEvents(link.after, link.ifIndex);
    var own := link.own;
    MergedDiscovery(link);
    UsableIpsConcat(CachePhase(link.before, link.ifIndex, own) + TrafficCandidates(link.packets, own),
                    CachePhase(link.after, link.ifIndex, own));
    UsableIpsConcat(CachePhase(link.before, link.ifIndex, own), TrafficCandidates(link.packets, own));
    PhaseDevices(link.before, link.ifIndex, own);
    TrafficDevices(link.packets, own);
    PhaseDevices(link.after, link.ifIndex, own);
    DevicesConcat(a + b, c, own);
    DevicesConcat(a, b, own);
    var x, y, z := Devices(a, own), Devices(b, own), Devices(c, own);
    DistinctParts(Distinct(x) + y, z);
    DistinctParts(x, y + z);
    assert x + (y + z) == x + y + z;
    assert Distinct(x) + (y + z) == Distinct(x) + y + z;
    EventsOf(link);
  }

  lemma MergedDiscovery(link: Link)
    ensures Ips(Discovered(link)) ==
      Distinct(UsableIps(CachePhase(link.before, link.ifIndex, link.own) + TrafficCandidates(link.packets, link.own)
                         + CachePhase(link.after, link.ifIndex, link.own)))
  {
    MergedList(Candidates(link));
  }

  lemma EventsOf(link: Link)
    ensures Events(link) == CacheEvents(link.before, link.ifIndex) + TrafficEvents(link.packets)
                            + CacheEvents(link.after, link.ifIndex)
  {
  }

  lemma {:induction false} SeenFirst(events: seq<string>, own: string, i: nat, j: nat) returns (t: nat)
    requires i < j < |Distinct(Devices(events, own))|
    ensures var found := Distinct(Devices(events, own));
            && t < |events| && events[t] == found[i]
            && forall u :: 0 <= u <= t ==> events[u] != found[j]
  {
    hide IsUninterestingAddress;
    var n := |events| - 1;
    var front, found := Distinct(Devices(events[..n], own)), Distinct(Devices(events, own));
    DistinctSnoc(Devices(events[..n], own), events[n]);
    if j < |front| {
      t := SeenFirst(events[..n], own, i, j);
      assert forall u :: 0 <= u <= t ==> events[..n][u] == events[u];
    } else {
      DistinctElements(Devices(events[..n], own));
      assert front[i] in Devices(events[..n], own) && found[j] !in Devices(events[..n], own);
      DevicesElements(events[..n], own, found[i]);
      DevicesElements(events, own, found[j]);
      DistinctElements(Devices(events, own));
      DevicesElements(events[..n], own, found[j]);
      t :| t < n && events[..n][t] == found[i];
      assert forall u :: 0 <= u <= t ==> events[..n][u] == events[u];
    }
  }

  lemma {:induction false} DevicesElements(events: seq<string>, own: string, x: string)
    ensures x in Devices(events, own) <==> x in events && !IsUninterestingAddress(x) && x != own
  {
    hide IsUninterestingAddress;
    if events != [] {
      var n := |events| - 1;
      DevicesElements(events[..n], own, x);
      assert events == events[..n] + [events[n]];
    }
  }

  /** Of two entries the earlier one was seen before the later one was. */
  lemma DiscoveredInOrder(link: Link, i: nat, j: nat) returns (t: nat)
    requires i < j < |Discovered(link)|
    ensures t < |Events(link)| && Events(link)[t] == Discovered(link)[i].ip
    ensures forall u :: 0 <= u <= t ==> Events(link)[u] != Discovered(link)[j].ip
  {
    hide Discovered, Events, Devices;
    FoundAsSeen(link);
    var found := Ips(Discovered(link));
    assert found[i] == Discovered(link)[i].ip && found[j] == Discovered(link)[j].ip;
    t := SeenFirst(Events(link), link.own, i, j);
  }
}
