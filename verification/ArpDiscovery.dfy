/** The layer-2 stage: merging what the neighbour cache and the captured traffic reveal about a link. */
module ArpDiscovery {
  import opened Text
  import opened Ipv4
  import opened Sequences

  datatype ObservationSource = ArpTraffic | Ipv4Traffic | NeighbourCache

  datatype L2Observation = L2Observation(ip: string, mac: string, source: ObservationSource)

  datatype NeighbourEntry = NeighbourEntry(ifIndex: u32, ip: string, mac: string, reachable: bool)

  predicate IsZeroMac(mac: string) {
    mac == "" || mac == "00:00:00:00:00:00" || mac == "00-00-00-00-00-00"
  }

  /** Malformed, unspecified, or 224.0.0.0 and above. `(x & 0xF0000000) >= 0xE0000000` compares the top
      four bits. */
  predicate IsUninterestingAddress(ip: string) {
    ip == "" || ip == "0.0.0.0" || ip == "255.255.255.255" ||
    match InetPton(CString(ip))
    case None => true
    case Some(x) => x / 0x1000_0000 * 0x1000_0000 >= 0xE000_0000
  }

  /** For every text: what the address check sees of it is a dotted quad below 224.0.0.0, and it is not the
      text of the unspecified address. */
  lemma InterestingIff(ip: string)
    ensures !IsUninterestingAddress(ip) <==>
      ip != "0.0.0.0" && exists x: u32 :: x < 0xE000_0000 && CString(ip) == InetNtop(x)
  {
    hide InetNtop, InetPton, CString, IsUninterestingAddress;
    QuadBelow(CString(ip), 0xE000_0000);
    UninterestingIff(ip);
  }

  lemma UninterestingIff(ip: string)
    ensures IsUninterestingAddress(ip) <==>
      ip == "0.0.0.0" || InetPton(CString(ip)).None? || InetPton(CString(ip)).value >= 0xE000_0000
  {
    hide InetPton, CString;
    EmptyIsNoQuad();
    BroadcastText();
    if InetPton(CString(ip)).Some? {
      TopFourBits(InetPton(CString(ip)).value);
    }
  }

  lemma QuadBelow(s: string, bound: nat)
    ensures (exists x: u32 :: x < bound && s == InetNtop(x)) <==> InetPton(s).Some? && InetPton(s).value < bound
  {
    hide InetNtop, InetPton;
    if x: u32 :| x < bound && s == InetNtop(x) {
      PtonIffNtop(s, x);
    } else if InetPton(s).Some? {
      PtonIffNtop(s, InetPton(s).value);
    }
  }

  lemma BroadcastText()
    ensures InetPton(CString("255.255.255.255")).Some?
    ensures InetPton(CString("255.255.255.255")).value == 0xFFFF_FFFF
  {
    hide InetNtop, InetPton;
    OnesText();
    QuadShape(0xFFFF_FFFF);
    CStringWithoutNul("255.255.255.255");
    NtopThenPton(0xFFFF_FFFF);
  }

  lemma EmptyIsNoQuad()
    ensures InetPton(CString("")).None?
  {
  }

  /** On NUL-free text these are the dotted quads strictly between 0.0.0.0 and 224.0.0.0, and no
      others. */
  lemma InterestingMeansUnicast(ip: string)
    requires '\0' !in ip
    ensures !IsUninterestingAddress(ip) <==> exists x: u32 :: 0 < x < 0xE000_0000 && ip == InetNtop(x)
  {
    hide InetNtop;
    hide InetPton;
    CStringWithoutNul(ip);
    PtonIffNtop("0.0.0.0", 0);
    PtonIffNtop("255.255.255.255", 0xFFFF_FFFF);
    ZeroText();
    OnesText();
    if x: u32 :| 0 < x < 0xE000_0000 && ip == InetNtop(x) {
      PtonIffNtop(ip, x);
      QuadShape(x);
      TopFourBits(x);
    } else if InetPton(ip).Some? {
      PtonIffNtop(ip, InetPton(ip).value);
      TopFourBits(InetPton(ip).value);
    }
  }

  lemma TopFourBits(x: u32)
    ensures x / 0x1000_0000 * 0x1000_0000 >= 0xE000_0000 <==> x >= 0xE000_0000
  {
  }

  lemma ZeroText()
    ensures InetNtop(0) == "0.0.0.0"
  {
    assert OctetText(0) == "0";
  }

  lemma OnesText()
    ensures InetNtop(0xFFFF_FFFF) == "255.255.255.255"
  {
    hide OctetText, Dotted;
    HighestOctet();
    FourOctets();
  }

  lemma HighestOctet()
    ensures OctetText(255) == "255"
  {
  }

  lemma FourOctets()
    ensures Dotted("255", "255", "255", "255") == "255.255.255.255"
  {
  }

  // One observation

  /** The position of the entry for `ip`, or the length when there is none. */
  function IndexOfIp(observations: seq<L2Observation>, ip: string): (i: nat)
    ensures i <= |observations|
    ensures i < |observations| ==> observations[i].ip == ip
    ensures forall j :: 0 <= j < i ==> observations[j].ip != ip
  {
    if observations == [] || observations[0].ip == ip then 0 else 1 + IndexOfIp(observations[1..], ip)
  }

  function Added(observations: seq<L2Observation>, candidate: L2Observation): seq<L2Observation> {
    var i := IndexOfIp(observations, candidate.ip);
    if IsUninterestingAddress(candidate.ip) then observations
    else if i == |observations| then observations + [candidate]
    else if IsZeroMac(observations[i].mac) then observations[i := observations[i].(mac := candidate.mac)]
    else observations
  }

  function AddedAll(observations: seq<L2Observation>, candidates: seq<L2Observation>): seq<L2Observation> {
    if candidates == [] then observations
    else Added(AddedAll(observations, candidates[..|candidates| - 1]), candidates[|candidates| - 1])
  }

  lemma AddedLast(observations: seq<L2Observation>, candidates: seq<L2Observation>, candidate: L2Observation)
    ensures AddedAll(observations, candidates + [candidate]) == Added(AddedAll(observations, candidates), candidate)
  {
    assert (candidates + [candidate])[..|candidates|] == candidates;
  }

  /** The vector that the phases of a discovery fill in place. */
  class ObservationList {
    var observations: seq<L2Observation>

    constructor ()
      ensures observations == []
    {
      observations := [];
    }

    method AddObservation(candidate: L2Observation)
      modifies this
      ensures observations == Added(old(observations), candidate)
    {
      if IsUninterestingAddress(candidate.ip) {
        return;
      }
      var i := 0;
      while i < |observations| && observations[i].ip != candidate.ip
        invariant i <= |observations|
        invariant forall j :: 0 <= j < i ==> observations[j].ip != candidate.ip
      {
        i := i + 1;
      }
      assert i == IndexOfIp(observations, candidate.ip);
      if i < |observations| {
        if IsZeroMac(observations[i].mac) {
          observations := observations[i := observations[i].(mac := candidate.mac)];
        }
        return;
      }
      observations := observations + [candidate];
    }
  }

  // The phases

  predicate IsSelected(entry: NeighbourEntry, ifIndex: u32) {
    entry.ifIndex == ifIndex && entry.reachable && !IsZeroMac(entry.mac)
  }

  /** The candidates that a cache snapshot offers, in order. */
  function CacheCandidates(entries: seq<NeighbourEntry>, ifIndex: u32): seq<L2Observation> {
    if entries == [] then []
    else
      var entry := entries[|entries| - 1];
      var front := CacheCandidates(entries[..|entries| - 1], ifIndex);
      if IsSelected(entry, ifIndex) then front + [L2Observation(entry.ip, entry.mac, NeighbourCache)] else front
  }

  method SelectNeighbourEntries(entries: seq<NeighbourEntry>, ifIndex: u32) returns (selected: seq<L2Observation>)
    ensures selected == AddedAll([], CacheCandidates(entries, ifIndex))
  {
    var list := new ObservationList();
    for i := 0 to |entries|
      invariant fresh(list)
      invariant list.observations == AddedAll([], CacheCandidates(entries[..i], ifIndex))
    {
      var entry := entries[i];
      assert entries[..i + 1][..i] == entries[..i];
      if entry.ifIndex != ifIndex || !entry.reachable || IsZeroMac(entry.mac) {
        continue;
      }
      AddedLast([], CacheCandidates(entries[..i], ifIndex), L2Observation(entry.ip, entry.mac, NeighbourCache));
      list.AddObservation(L2Observation(entry.ip, entry.mac, NeighbourCache));
    }
    assert entries[..|entries|] == entries;
    selected := list.observations;
  }

  type Byte = x: int | 0 <= x < 256

  /** Empty unless the packet starts with a well-formed IPv4 header. */
  function ParseIpv4SourceAddress(packet: seq<Byte>): string {
    if |packet| < 20 || packet[0] / 16 != 4 then ""
    else
      var headerLength := packet[0] % 16 * 4;
      if headerLength < 20 || headerLength > |packet| then ""
      else
        var a: int, b: int, c: int, d: int := packet[12], packet[13], packet[14], packet[15];
        InetNtop(0x100_0000 * a + 0x1_0000 * b + 0x100 * c + d)
  }

  /** The candidates that captured packets offer, in order. */
  function TrafficCandidates(packets: seq<seq<Byte>>, own: string): seq<L2Observation> {
    if packets == [] then []
    else
      var source := ParseIpv4SourceAddress(packets[|packets| - 1]);
      var front := TrafficCandidates(packets[..|packets| - 1], own);
      if source == "" || source == own then front else front + [L2Observation(source, "", Ipv4Traffic)]
  }

  /** The receiving loop; it may end after any number of packets. */
  method CaptureLinkTraffic(own: string, packets: seq<seq<Byte>>, list: ObservationList)
    modifies list
    ensures list.observations == AddedAll(old(list.observations), TrafficCandidates(packets, own))
  {
    hide ParseIpv4SourceAddress;
    for i := 0 to |packets|
      invariant list.observations == AddedAll(old(list.observations), TrafficCandidates(packets[..i], own))
    {
      var source := ParseIpv4SourceAddress(packets[i]);
      assert packets[..i + 1][..i] == packets[..i];
      if source == "" || source == own {
        continue;
      }
      AddedLast(old(list.observations), TrafficCandidates(packets[..i], own), L2Observation(source, "", Ipv4Traffic));
      list.AddObservation(L2Observation(source, "", Ipv4Traffic));
    }
    assert packets[..|packets|] == packets;
  }

  function NotOwn(observations: seq<L2Observation>, own: string): seq<L2Observation> {
    if observations == [] then []
    else
      var last := observations[|observations| - 1];
      var front := NotOwn(observations[..|observations| - 1], own);
      if last.ip == own then front else front + [last]
  }

  method AddAllButOwn(selected: seq<L2Observation>, own: string, list: ObservationList)
    modifies list
    ensures list.observations == AddedAll(old(list.observations), NotOwn(selected, own))
  {
    for i := 0 to |selected|
      invariant list.observations == AddedAll(old(list.observations), NotOwn(selected[..i], own))
    {
      assert selected[..i + 1][..i] == selected[..i];
      if selected[i].ip != own {
        AddedLast(old(list.observations), NotOwn(selected[..i], own), selected[i]);
        list.AddObservation(selected[i]);
      }
    }
    assert selected[..|selected|] == selected;
  }

  /** The adapter and what the link shows during one discovery. `captureError` is what a failed capture
      reports, with no packets then. */
  datatype Link = Link(
    ifIndex: u32, own: string, name: string,
    before: seq<NeighbourEntry>, packets: seq<seq<Byte>>, after: seq<NeighbourEntry>,
    captureError: string)

  /** What a cache phase hands on: the merged selection without the own address. */
  function CachePhase(entries: seq<NeighbourEntry>, ifIndex: u32, own: string): seq<L2Observation> {
    NotOwn(AddedAll([], CacheCandidates(entries, ifIndex)), own)
  }

  /** Every candidate in the order in which the three phases offer them. */
  function Candidates(link: Link): seq<L2Observation> {
    CachePhase(link.before, link.ifIndex, link.own)
    + TrafficCandidates(link.packets, link.own)
    + CachePhase(link.after, link.ifIndex, link.own)
  }

  function Discovered(link: Link): seq<L2Observation> {
    AddedAll([], Candidates(link))
  }

  method DiscoverLinkLayerHosts(link: Link) returns (observations: seq<L2Observation>, error: string)
    ensures observations == Discovered(link)
    ensures observations != [] ==> error == ""
    ensures observations == [] && link.captureError != "" ==> error == link.captureError
    ensures observations == [] && link.captureError == "" ==>
      error == "no station announced an IPv4 address on " + link.name + " during the layer-2 listening window"
  {
    var list := new ObservationList();
    var selected := SelectNeighbourEntries(link.before, link.ifIndex);
    AddAllButOwn(selected, link.own, list);
    CaptureLinkTraffic(link.own, link.packets, list);
    selected := SelectNeighbourEntries(link.after, link.ifIndex);
    AddAllButOwn(selected, link.own, list);
    observations := list.observations;
    error := link.captureError;
    if observations != [] {
      error := "";
    } else if error == "" {
      error := "no station announced an IPv4 address on " + link.name
               + " during the layer-2 listening window";
    }
    ghost var a := CachePhase(link.before, link.ifIndex, link.own);
    ghost var b := TrafficCandidates(link.packets, link.own);
    AddedAllConcat([], a, b);
    AddedAllConcat([], a + b, CachePhase(link.after, link.ifIndex, link.own));
  }

  lemma {:induction false} AddedAllConcat(
      observations: seq<L2Observation>, a: seq<L2Observation>, b: seq<L2Observation>)
    ensures AddedAll(observations, a + b) == AddedAll(AddedAll(observations, a), b)
  {
    if b == [] {
      assert a + b == a;
    } else {
      var n := |b| - 1;
      assert (a + b)[..|a + b| - 1] == a + b[..n];
      AddedAllConcat(observations, a, b[..n]);
    }
  }

  // What the merged list is

  /** The addresses of the candidates that can identify a device. */
  function UsableIps(candidates: seq<L2Observation>): seq<string> {
    if candidates == [] then []
    else
      var last := candidates[|candidates| - 1];
      var front := UsableIps(candidates[..|candidates| - 1]);
      if IsUninterestingAddress(last.ip) then front else front + [last.ip]
  }

  /** The MACs offered for one address, in order. */
  function MacsFor(candidates: seq<L2Observation>, ip: string): seq<string> {
    if candidates == [] then []
    else
      var last := candidates[|candidates| - 1];
      var front := MacsFor(candidates[..|candidates| - 1], ip);
      if last.ip == ip then front + [last.mac] else front
  }

  /** The first MAC that is not zero, or the last one when all are. */
  function Resolved(macs: seq<string>): string
    requires macs != []
  {
    if !IsZeroMac(macs[0]) || |macs| == 1 then macs[0] else Resolved(macs[1..])
  }

  /** The source of the first candidate that offers the address. */
  function FirstSource(candidates: seq<L2Observation>, ip: string): ObservationSource {
    if candidates == [] then ArpTraffic
    else
      var front := candidates[..|candidates| - 1];
      if MacsFor(front, ip) != [] then FirstSource(front, ip) else candidates[|candidates| - 1].source
  }

  function Ips(observations: seq<L2Observation>): seq<string> {
    seq(|observations|, i requires 0 <= i < |observations| => observations[i].ip)
  }

  ghost predicate EntriesResolved(observations: seq<L2Observation>, candidates: seq<L2Observation>) {
    forall i :: 0 <= i < |observations| ==>
      MacsFor(candidates, observations[i].ip) != [] &&
      observations[i].mac == Resolved(MacsFor(candidates, observations[i].ip)) &&
      observations[i].source == FirstSource(candidates, observations[i].ip)
  }

  lemma {:induction false} ResolvedLast(macs: seq<string>, mac: string)
    requires macs != []
    ensures Resolved(macs + [mac]) == if IsZeroMac(Resolved(macs)) then mac else Resolved(macs)
  {
    if |macs| == 1 {
      assert (macs + [mac])[1..] == [mac];
    } else {
      assert (macs + [mac])[1..] == macs[1..] + [mac];
      if IsZeroMac(macs[0]) {
        ResolvedLast(macs[1..], mac);
      }
    }
  }

  lemma {:induction false} ResolvedMeaning(macs: seq<string>)
    requires macs != []
    ensures Resolved(macs) in macs
    ensures IsZeroMac(Resolved(macs)) <==> forall m :: m in macs ==> IsZeroMac(m)
  {
    if |macs| > 1 && IsZeroMac(macs[0]) {
      ResolvedMeaning(macs[1..]);
      assert macs == [macs[0]] + macs[1..];
    }
  }

  lemma IpListed(observations: seq<L2Observation>, ip: string)
    ensures ip in Ips(observations) <==> IndexOfIp(observations, ip) < |observations|
  {
    var i := IndexOfIp(observations, ip);
    if i < |observations| {
      assert Ips(observations)[i] == ip;
    }
  }

  lemma {:induction false} NoMacsUnlessUsable(candidates: seq<L2Observation>, ip: string)
    requires !IsUninterestingAddress(ip)
    ensures MacsFor(candidates, ip) != [] <==> ip in UsableIps(candidates)
  {
    if candidates != [] {
      NoMacsUnlessUsable(candidates[..|candidates| - 1], ip);
    }
  }

  /** The list has one entry per usable address, in the order in which the addresses were first seen, and
      each entry carries the first non-zero MAC that was offered for it and the source that saw it first. */
  lemma {:induction false} MergedList(candidates: seq<L2Observation>)
    ensures Ips(AddedAll([], candidates)) == Distinct(UsableIps(candidates))
    ensures EntriesResolved(AddedAll([], candidates), candidates)
  {
    if candidates == [] {
      assert Ips([]) == [];
    } else {
      hide *;
      var front, last := candidates[..|candidates| - 1], candidates[|candidates| - 1];
      assert candidates == front + [last];
      MergedList(front);
      MergeOne(AddedAll([], front), front, last);
      AddedLast([], front, last);
    }
  }

  lemma MergeOne(observations: seq<L2Observation>, candidates: seq<L2Observation>, c: L2Observation)
    requires Ips(observations) == Distinct(UsableIps(candidates))
    requires EntriesResolved(observations, candidates)
    ensures Ips(Added(observations, c)) == Distinct(UsableIps(candidates + [c]))
    ensures EntriesResolved(Added(observations, c), candidates + [c])
  {
    hide IsUninterestingAddress;
    assert (candidates + [c])[..|candidates|] == candidates;
    DistinctElements(UsableIps(candidates));
    DistinctSnoc(UsableIps(candidates), c.ip);
    IpListed(observations, c.ip);
    if IsUninterestingAddress(c.ip) {
      OtherMacsStay(observations, candidates, c);
    } else if IndexOfIp(observations, c.ip) == |observations| {
      assert Ips(observations + [c]) == Ips(observations) + [c.ip];
      MergeNew(observations, candidates, c);
    } else {
      assert Ips(Added(observations, c)) == Ips(observations);
      MergeKnown(observations, candidates, c);
    }
  }

  lemma OtherMacsStay(observations: seq<L2Observation>, candidates: seq<L2Observation>, c: L2Observation)
    requires Ips(observations) == Distinct(UsableIps(candidates)) && IsUninterestingAddress(c.ip)
    requires EntriesResolved(observations, candidates)
    ensures EntriesResolved(observations, candidates + [c])
  {
    hide IsUninterestingAddress;
    assert (candidates + [c])[..|candidates|] == candidates;
    DistinctElements(UsableIps(candidates));
    forall j | 0 <= j < |observations| ensures observations[j].ip != c.ip {
      assert Ips(observations)[j] == observations[j].ip;
      UsableIpsAreUsable(candidates, observations[j].ip);
    }
  }

  lemma MergeNew(observations: seq<L2Observation>, candidates: seq<L2Observation>, c: L2Observation)
    requires Ips(observations) == Distinct(UsableIps(candidates)) && !IsUninterestingAddress(c.ip)
    requires IndexOfIp(observations, c.ip) == |observations|
    requires EntriesResolved(observations, candidates)
    ensures EntriesResolved(observations + [c], candidates + [c])
  {
    hide IsUninterestingAddress;
    assert (candidates + [c])[..|candidates|] == candidates;
    DistinctElements(UsableIps(candidates));
    IpListed(observations, c.ip);
    NoMacsUnlessUsable(candidates, c.ip);
  }

  lemma MergeKnown(observations: seq<L2Observation>, candidates: seq<L2Observation>, c: L2Observation)
    requires Ips(observations) == Distinct(UsableIps(candidates)) && !IsUninterestingAddress(c.ip)
    requires IndexOfIp(observations, c.ip) < |observations|
    requires EntriesResolved(observations, candidates)
    ensures EntriesResolved(Added(observations, c), candidates + [c])
  {
    hide IsUninterestingAddress;
    var i := IndexOfIp(observations, c.ip);
    assert (candidates + [c])[..|candidates|] == candidates;
    ResolvedLast(MacsFor(candidates, c.ip), c.mac);
    OnlyEntryForIp(observations, candidates, i);
  }

  lemma {:induction false} UsableIpsAreUsable(candidates: seq<L2Observation>, ip: string)
    requires ip in UsableIps(candidates)
    ensures !IsUninterestingAddress(ip)
  {
    hide IsUninterestingAddress;
    var n := |candidates| - 1;
    if ip in UsableIps(candidates[..n]) {
      UsableIpsAreUsable(candidates[..n], ip);
    }
  }

  lemma OnlyEntryForIp(observations: seq<L2Observation>, candidates: seq<L2Observation>, i: nat)
    requires Ips(observations) == Distinct(UsableIps(candidates)) && i < |observations|
    ensures forall j :: 0 <= j < |observations| && j != i ==> observations[j].ip != observations[i].ip
  {
    DistinctElements(UsableIps(candidates));
    forall j | 0 <= j < |observations| && j != i ensures observations[j].ip != observations[i].ip {
      assert Ips(observations)[j] == observations[j].ip && Ips(observations)[i] == observations[i].ip;
    }
  }
}
