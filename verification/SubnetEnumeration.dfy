/** The list of host addresses that the first discovery stage probes. */
module SubnetEnumeration {
  import opened Bits
  import opened Ipv4
  import opened InterfaceDiscovery

  /** The addresses from `lo` up to but not including `hi`, without `own`. */
  function RangeWithout(lo: nat, hi: nat, own: u32): seq<u32>
    requires hi <= 0x1_0000_0000
    decreases hi - lo
  {
    if lo >= hi then []
    else RangeWithout(lo, hi - 1, own) + (if hi - 1 == own then [] else [hi - 1])
  }

  /** The addresses behind the returned texts. */
  function HostAddresses(iface: NetworkInterface, minPrefix: int): seq<u32> {
    var prefix := LeadingOnes(iface.mask, 32);
    if prefix < minPrefix || iface.mask == 0 then []
    else if prefix >= 31 then
      LastBlockFits(iface);
      RangeWithout(iface.Network(), iface.Network() + (if prefix == 32 then 1 else 2), iface.address)
    else
      RangeWithout(iface.Network() + 1, iface.Broadcast(), iface.address)
  }

  function DottedAll(xs: seq<u32>): (texts: seq<string>) {
    seq(|xs|, i requires 0 <= i < |xs| => InetNtop(xs[i]))
  }

  /** Unsigned 32-bit addition. */
  function WrapAdd(x: u32, y: u32): u32 {
    (x + y) % 0x1_0000_0000
  }

  /** The mask starts with at least `minPrefix` one-bits and has any. */
  ghost predicate IsAccepted(mask: u32, minPrefix: int) {
    mask != 0 && minPrefix <= 32 && HighBitsSet(32, mask, 32 - minPrefix)
  }

  lemma AcceptedIff(mask: u32, minPrefix: int)
    ensures IsAccepted(mask, minPrefix) <==> mask != 0 && minPrefix <= LeadingOnes(mask, 32)
  {
    var p := LeadingOnes(mask, 32);
    LeadingOnesMeaning(mask, 32);
    if p < minPrefix <= 32 {
      assert !Bit(mask, 31 - p);
    }
  }

  method EnumerateSubnetHosts(iface: NetworkInterface, minPrefix: int) returns (hosts: seq<string>)
    ensures hosts == DottedAll(HostAddresses(iface, minPrefix))
    ensures |hosts| == |HostAddresses(iface, minPrefix)|
    ensures forall i :: 0 <= i < |hosts| ==> hosts[i] == InetNtop(HostAddresses(iface, minPrefix)[i])
    ensures !IsAccepted(iface.mask, minPrefix) ==> hosts == []
  {
    AcceptedIff(iface.mask, minPrefix);
    var prefix := PrefixLength(iface.mask);
    if prefix < minPrefix || iface.mask == 0 {
      hosts := [];
    } else if prefix >= 31 {
      LastBlockFits(iface);
      hosts := ListFrom(iface.Network(), if prefix == 32 then 1 else 2, iface.address);
    } else {
      InnerRangeFits(iface);
      hosts := ListBetween(iface.Network(), iface.Broadcast(), iface.address);
    }
  }

  /** The loop for /31 and /32 links. */
  method ListFrom(network: u32, count: u32, own: u32) returns (hosts: seq<string>)
    requires network + count <= 0x1_0000_0000
    ensures hosts == DottedAll(RangeWithout(network, network + count, own))
  {
    hide InetNtop;
    hosts := [];
    var i: u32 := 0;
    while i < count
      invariant i <= count
      invariant hosts == DottedAll(RangeWithout(network, network + i, own))
    {
      var address := WrapAdd(network, i);
      NextInRange(network, address, own);
      if address != own {
        hosts := hosts + [InetNtop(address)];
      }
      i := i + 1;
    }
  }

  /** The loop for larger subnets. */
  method ListBetween(network: u32, broadcast: u32, own: u32) returns (hosts: seq<string>)
    requires network < broadcast
    ensures hosts == DottedAll(RangeWithout(network + 1, broadcast, own))
  {
    hide InetNtop;
    hosts := [];
    var address := WrapAdd(network, 1);
    while address < broadcast
      invariant network + 1 <= address <= broadcast
      invariant hosts == DottedAll(RangeWithout(network + 1, address, own))
    {
      NextInRange(network + 1, address, own);
      if address != own {
        hosts := hosts + [InetNtop(address)];
      }
      address := WrapAdd(address, 1);
    }
  }

  lemma NextInRange(lo: nat, hi: u32, own: u32)
    requires lo <= hi
    ensures DottedAll(RangeWithout(lo, hi + 1, own))
         == DottedAll(RangeWithout(lo, hi, own)) + (if hi == own then [] else [InetNtop(hi)])
  {
    var front := RangeWithout(lo, hi, own);
    if hi != own {
      assert RangeWithout(lo, hi + 1, own) == front + [hi];
      var all := DottedAll(front + [hi]);
      assert all[..|front|] == DottedAll(front) && all[|front|] == InetNtop(hi);
    }
  }

  /** Neither loop runs past the top of the address space. */
  lemma LastBlockFits(iface: NetworkInterface)
    ensures LeadingOnes(iface.mask, 32) <= 32
    ensures LeadingOnes(iface.mask, 32) == 31 ==> iface.Network() + 1 == iface.Broadcast()
    ensures LeadingOnes(iface.mask, 32) == 32 ==> iface.Network() == iface.Broadcast()
  {
    RoomUnderMask(iface.mask);
    Pow2Values();
    assert Pow2(0) == 1;
  }

  lemma InnerRangeFits(iface: NetworkInterface)
    requires LeadingOnes(iface.mask, 32) <= 30
    ensures iface.Network() + 2 <= iface.Broadcast()
  {
    RoomUnderMask(iface.mask);
    Pow2Values();
    Pow2Monotone(1, 31 - LeadingOnes(iface.mask, 32));
  }

  // What the list holds

  ghost predicate Increasing(xs: seq<u32>) {
    forall i, j :: 0 <= i < j < |xs| ==> xs[i] < xs[j]
  }

  lemma {:induction false} RangeElements(lo: nat, hi: nat, own: u32)
    requires hi <= 0x1_0000_0000
    ensures forall x: u32 :: x in RangeWithout(lo, hi, own) <==> lo <= x < hi && x != own
    ensures Increasing(RangeWithout(lo, hi, own))
    ensures lo <= hi ==>
      |RangeWithout(lo, hi, own)| == hi - lo - (if lo <= own < hi then 1 else 0)
    decreases hi - lo
  {
    if lo < hi {
      RangeElements(lo, hi - 1, own);
      var front := RangeWithout(lo, hi - 1, own);
      forall i | 0 <= i < |front| ensures front[i] < hi - 1 {
        assert front[i] in front;
      }
    }
  }

  /** The texts are as distinct as the addresses: one is listed exactly when its address is. */
  lemma ListedTexts(iface: NetworkInterface, minPrefix: int, x: u32)
    ensures InetNtop(x) in DottedAll(HostAddresses(iface, minPrefix)) <==> x in HostAddresses(iface, minPrefix)
  {
    var xs := HostAddresses(iface, minPrefix);
    if InetNtop(x) in DottedAll(xs) {
      var i :| 0 <= i < |xs| && DottedAll(xs)[i] == InetNtop(x);
      NtopThenPton(x);
      NtopThenPton(xs[i]);
    }
    if x in xs {
      var i :| 0 <= i < |xs| && xs[i] == x;
      assert DottedAll(xs)[i] == InetNtop(x);
    }
  }

  /** For every interface the list is strictly increasing, hence free of repetitions, and never holds
      the adapter's own address. */
  lemma ListIsIncreasing(iface: NetworkInterface, minPrefix: int)
    ensures Increasing(HostAddresses(iface, minPrefix))
    ensures iface.address !in HostAddresses(iface, minPrefix)
  {
    LastBlockFits(iface);
    var n: int, b: int := iface.Network(), iface.Broadcast();
    if LeadingOnes(iface.mask, 32) <= 30 {
      RangeElements(n + 1, b, iface.address);
    } else {
      RangeElements(n, b + 1, iface.address);
    }
  }

  /** The list for every interface and limit, in terms of the mask's bits: nothing for a mask that is not
      accepted, both ends of a block of one or two addresses, and only what lies between the ends of a
      larger one; never the own address. */
  lemma ListedIff(iface: NetworkInterface, minPrefix: int, x: u32)
    ensures x in HostAddresses(iface, minPrefix) <==>
      var first: int, room: int := And(iface.address, iface.mask), 0xFFFF_FFFF - iface.mask;
      && IsAccepted(iface.mask, minPrefix) && x != iface.address
      && (if room <= 1 then first <= x <= first + room else first < x < first + room)
  {
    hide And, LeadingOnes, Pow2, IsAccepted, RangeWithout;
    AcceptedIff(iface.mask, minPrefix);
    LastBlockFits(iface);
    RoomUnderMask(iface.mask);
    SmallRoom(iface.mask);
    Pow2Values();
    var p := LeadingOnes(iface.mask, 32);
    var n: int, b: int := iface.Network(), iface.Broadcast();
    if p <= 30 {
      Pow2Monotone(1, 31 - p);
      RangeElements(n + 1, b, iface.address);
    } else {
      RangeElements(n, b + 1, iface.address);
    }
  }

  /** On a /31 link the list is the other address of the pair, on a /32 link it is empty. */
  lemma PointToPoint(iface: NetworkInterface, minPrefix: int)
    requires minPrefix <= 31
    ensures iface.mask == 0xFFFF_FFFE ==> exists peer: u32 ::
      && HostAddresses(iface, minPrefix) == [peer]
      && peer != iface.address && And(peer, iface.mask) == And(iface.address, iface.mask)
    ensures iface.mask == 0xFFFF_FFFF ==> HostAddresses(iface, minPrefix) == []
  {
    hide HostAddresses, LeadingOnes, And, HighOnes, Pow2;
    if iface.mask >= 0xFFFF_FFFE {
      var low := 0xFFFF_FFFF - iface.mask;
      SmallBlock(iface, low);
      var hosts := HostAddresses(iface, minPrefix);
      LengthFromRoom(iface, minPrefix);
      if low == 1 {
        ListedIff(iface, minPrefix, hosts[0]);
        SameBlock(32, 1, iface.address, hosts[0]);
        assert hosts == [hosts[0]];
      }
    }
  }

  lemma SmallBlock(iface: NetworkInterface, low: nat)
    requires low <= 1 && iface.mask == 0xFFFF_FFFF - low
    ensures iface.mask == HighOnes(32, low) && LeadingOnes(iface.mask, 32) == 32 - low
    ensures Pow2(low) == low + 1 && Pow2(32) == 0x1_0000_0000
  {
    Pow2Values();
    assert Pow2(0) == 1;
    LeadingOnesOfHighOnes(low, 32);
  }

  /** The usable hosts of a subnet: the addresses the mask sends to its network address, other than
      that one, the broadcast address and the adapter's own. */
  ghost predicate IsOtherHost(iface: NetworkInterface, x: u32) {
    && And(x, iface.mask) == iface.Network()
    && x != iface.Network() && x != iface.Broadcast() && x != iface.address
  }

  lemma ContiguousListsSubnet(iface: NetworkInterface, minPrefix: int, x: u32)
    requires iface.mask != 0 && minPrefix <= LeadingOnes(iface.mask, 32) <= 30
    requires Contiguous(32, iface.mask)
    ensures x in HostAddresses(iface, minPrefix) <==> IsOtherHost(iface, x)
  {
    hide RangeWithout, LeadingOnes, And, HighOnes, Pow2;
    Pow2Values();
    InnerRangeFits(iface);
    var n: int, b: int := iface.Network(), iface.Broadcast();
    RangeElements(n + 1, b, iface.address);
    var low := ContiguousIsHighOnes(32, iface.mask);
    SameBlock(32, low, iface.address, x);
  }

  lemma OtherMasksListForeigners(iface: NetworkInterface, minPrefix: int) returns (x: u32)
    requires iface.mask != 0 && minPrefix <= LeadingOnes(iface.mask, 32) <= 30
    requires !Contiguous(32, iface.mask)
    ensures x in HostAddresses(iface, minPrefix) && And(x, iface.mask) != iface.Network()
  {
    Pow2Values();
    InnerRangeFits(iface);
    var n: int, b: int := iface.Network(), iface.Broadcast();
    RangeElements(n + 1, b, iface.address);
    hide RangeWithout;
    AndAgain(iface.address, iface.mask);
    x := GapInRange(32, n, iface.mask);
  }

  /** For an accepted prefix up to /30 the list is exactly the other hosts of the subnet if and only if
      the mask is contiguous. Under any other mask the loop also lists addresses of foreign subnets. */
  lemma ExactlyTheSubnet(iface: NetworkInterface, minPrefix: int)
    requires iface.mask != 0 && minPrefix <= LeadingOnes(iface.mask, 32) <= 30
    ensures (forall x: u32 :: x in HostAddresses(iface, minPrefix) <==> IsOtherHost(iface, x))
            <==> Contiguous(32, iface.mask)
  {
    hide HostAddresses;
    if Contiguous(32, iface.mask) {
      forall x: u32 ensures x in HostAddresses(iface, minPrefix) <==> IsOtherHost(iface, x) {
        ContiguousListsSubnet(iface, minPrefix, x);
      }
    } else {
      var x := OtherMasksListForeigners(iface, minPrefix);
      assert !IsOtherHost(iface, x);
    }
  }

  /** How long the list is under any mask. */
  lemma LengthFromRoom(iface: NetworkInterface, minPrefix: int)
    requires iface.mask != 0 && minPrefix <= LeadingOnes(iface.mask, 32)
    ensures LeadingOnes(iface.mask, 32) >= 31 ==>
      |HostAddresses(iface, minPrefix)| == ALL_ONES - iface.mask
    ensures LeadingOnes(iface.mask, 32) <= 30 ==>
      |HostAddresses(iface, minPrefix)| == ALL_ONES - iface.mask - 1
        - (if iface.Network() < iface.address < iface.Broadcast() then 1 else 0)
  {
    var n: int, b: int := iface.Network(), iface.Broadcast();
    if LeadingOnes(iface.mask, 32) <= 30 {
      InnerRangeFits(iface);
      RangeElements(n + 1, b, iface.address);
    } else {
      LastBlockFits(iface);
      RangeElements(n, b + 1, iface.address);
      LastBlockHoldsOwn(iface);
    }
  }

  /** On a /31 or /32 link there is no address outside the block. */
  lemma LastBlockHoldsOwn(iface: NetworkInterface)
    requires LeadingOnes(iface.mask, 32) >= 31
    ensures iface.Network() <= iface.address <= iface.Broadcast()
  {
    RoomUnderMask(iface.mask);
    LeadingOnesMeaning(iface.mask, 32);
    Pow2Values();
    forall i, j | 0 <= i < j < 32 && Bit(iface.mask, i) ensures Bit(iface.mask, j) {
      assert 32 - LeadingOnes(iface.mask, 32) <= j;
    }
    var low := ContiguousIsHighOnes(32, iface.mask);
    SameBlock(32, low, iface.address, iface.address);
  }

  lemma RefusedListsNothing(iface: NetworkInterface, minPrefix: int)
    ensures LeadingOnes(iface.mask, 32) < minPrefix || iface.mask == 0 ==> HostAddresses(iface, minPrefix) == []
  {
    hide RangeWithout, LeadingOnes;
  }

  /** Whatever the mask, the sweep stays bounded. */
  lemma SweepIsBounded(iface: NetworkInterface, minPrefix: nat)
    requires minPrefix <= 30
    ensures |HostAddresses(iface, minPrefix)| <= Pow2(32 - minPrefix) - 2
  {
    hide RangeWithout, HostAddresses, LeadingOnes, Pow2;
    var prefix := LeadingOnes(iface.mask, 32);
    Pow2AtLeastFour(32 - minPrefix);
    RefusedListsNothing(iface, minPrefix);
    if prefix >= minPrefix && iface.mask != 0 {
      RoomUnderMask(iface.mask);
      Pow2Monotone(32 - prefix, 32 - minPrefix);
      LengthFromRoom(iface, minPrefix);
      SmallRoom(iface.mask);
    }
  }

  /** The default limit of /22 means at most 1022 addresses. */
  lemma DefaultSweepIsBounded(iface: NetworkInterface)
    ensures |HostAddresses(iface, 22)| <= 1022
  {
    hide HostAddresses;
    SweepIsBounded(iface, 22);
    assert Pow2(10) == 1024;
  }

  lemma Pow2AtLeastFour(n: nat)
    requires n >= 2
    ensures Pow2(n) >= 4
  {
    Pow2Monotone(2, n);
    assert Pow2(2) == 4;
  }

  lemma SmallRoom(mask: u32)
    ensures LeadingOnes(mask, 32) >= 31 ==> ALL_ONES - mask <= 1
  {
    RoomUnderMask(mask);
    assert Pow2(0) == 1 && Pow2(1) == 2;
  }

  /** The adapter's own address is one of the usable ones; on /31 (section 2.1 of RFC 3021) and /32
      links every address is. */
  ghost predicate OwnIsUsable(iface: NetworkInterface) {
    LeadingOnes(iface.mask, 32) >= 31 || (iface.address != iface.Network() && iface.address != iface.Broadcast())
  }

  /** For an accepted contiguous mask the length is the usable host count, minus one exactly when the
      own address is usable. */
  lemma ListLength(iface: NetworkInterface, minPrefix: int)
    requires iface.mask != 0 && minPrefix <= LeadingOnes(iface.mask, 32)
    requires Contiguous(32, iface.mask)
    ensures |HostAddresses(iface, minPrefix)|
         == UsableHostCount(iface.mask) - (if OwnIsUsable(iface) then 1 else 0)
  {
    Pow2Values();
    var low := ContiguousIsHighOnes(32, iface.mask);
    LeadingOnesOfHighOnes(low, 32);
    SameBlock(32, low, iface.address, iface.address);
    LengthFromRoom(iface, minPrefix);
    assert 32 - LeadingOnes(iface.mask, 32) == low;
    assert iface.Broadcast() == iface.Network() + Pow2(low) - 1;
    assert Pow2(0) == 1 && Pow2(1) == 2;
    assert UsableHostCount(iface.mask) == if low <= 1 then low + 1 else Pow2(low) - 2;
  }
}
