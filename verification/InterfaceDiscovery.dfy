/** The local adapter's address and mask: network arithmetic and the text forms of a netmask. */
module InterfaceDiscovery {
  import opened Bits
  import opened Ipv4
  import opened Text

  const ALL_ONES: u32 := 0xFFFF_FFFF

  /** The fields of the adapter that the sweep reads. */
  datatype NetworkInterface = NetworkInterface(name: string, ipv4: string, address: u32, mask: u32, ifIndex: u32) {

    function Network(): (n: u32) {
      AndBound(address, mask);
      And(address, mask)
    }

    function Broadcast(): (b: u32)
      ensures b == Network() + (ALL_ONES - mask)
    {
      BroadcastFits(address, mask);
      Or(Network(), ALL_ONES - mask)
    }
  }

  lemma NotInWord(mask: u32)
    ensures mask < Pow2(32) && Not(32, mask) == ALL_ONES - mask
  {
    Pow2Values();
  }

  lemma BroadcastFits(address: u32, mask: u32)
    ensures Or(And(address, mask), ALL_ONES - mask) == And(address, mask) + (ALL_ONES - mask) <= ALL_ONES
  {
    NotInWord(mask);
    AndBound(address, mask);
    MaskedAndComplement(32, address, mask);
    hide And, Or, Not, Pow2;
    OrOfDisjoint(And(address, mask), ALL_ONES - mask);
  }

  // Prefix lengths

  /** The number of one-bits from bit `top - 1` down to the first zero-bit. */
  function LeadingOnes(mask: u32, top: nat): nat {
    if top == 0 || !Bit(mask, top - 1) then 0 else 1 + LeadingOnes(mask, top - 1)
  }

  method PrefixLength(mask: u32) returns (bits: nat)
    ensures bits == LeadingOnes(mask, 32)
  {
    bits := 0;
    var i := 31;
    while i >= 0
      invariant -1 <= i <= 31
      invariant bits + LeadingOnes(mask, i + 1) == LeadingOnes(mask, 32)
    {
      if ShiftRight(mask, i) % 2 == 1 {
        bits := bits + 1;
      } else {
        break;
      }
      i := i - 1;
    }
  }

  /** What the count means: the bits above are set and the one below them is not. */
  lemma {:induction false} LeadingOnesMeaning(mask: u32, top: nat)
    ensures LeadingOnes(mask, top) <= top
    ensures HighBitsSet(top, mask, top - LeadingOnes(mask, top))
    ensures LeadingOnes(mask, top) < top ==> !Bit(mask, top - LeadingOnes(mask, top) - 1)
  {
    if top > 0 && Bit(mask, top - 1) {
      LeadingOnesMeaning(mask, top - 1);
    }
  }

  lemma {:induction false} LeadingOnesOfHighOnes(low: nat, top: nat)
    requires low <= top <= 32
    ensures HighOnes(32, low) < 0x1_0000_0000
    ensures LeadingOnes(HighOnes(32, low), top) == top - low
    decreases top
  {
    Pow2Values();
    if top > 0 {
      BitsOfHighOnes(32, low, top - 1);
      if low < top {
        LeadingOnesOfHighOnes(low, top - 1);
      }
    }
  }

  /** A mask with `p` leading ones leaves room for at most `2^(32-p)` addresses; one with a zero-bit
      after them leaves room for at least `2^(31-p)` beyond the first. */
  lemma RoomUnderMask(mask: u32)
    ensures LeadingOnes(mask, 32) <= 32
    ensures ALL_ONES - mask < Pow2(32 - LeadingOnes(mask, 32))
    ensures LeadingOnes(mask, 32) < 32 ==> Pow2(31 - LeadingOnes(mask, 32)) <= ALL_ONES - mask
  {
    var p := LeadingOnes(mask, 32);
    LeadingOnesMeaning(mask, 32);
    Pow2Values();
    HighBitsSetMeansLarge(32, mask, 32 - p);
    if p < 32 {
      ClearBitMeansSmall(32, mask, 31 - p);
    }
  }

  function UsableHostCount(mask: u32): nat {
    LeadingOnesMeaning(mask, 32);
    var prefix := LeadingOnes(mask, 32);
    if prefix >= 31 then (if prefix == 32 then 1 else 2) else Pow2(32 - prefix) - 2
  }

  /** The count in terms of the mask's bits: with exactly `p` ones before the first zero-bit, all but two of
      the addresses that `32 - p` bits can tell apart, or all of them if those are one or two. */
  lemma UsableHostsByPrefix(mask: u32, p: nat)
    requires p <= 32 && HighBitsSet(32, mask, 32 - p) && (p < 32 ==> !Bit(mask, 31 - p))
    ensures UsableHostCount(mask) == Pow2(32 - p) - (if p <= 30 then 2 else 0)
  {
    LeadingOnesMeaning(mask, 32);
    var q := LeadingOnes(mask, 32);
    var atQ, atP := q < 32 && Bit(mask, 31 - q), p < 32 && Bit(mask, 31 - p);
    Pow2Values();
    assert Pow2(0) == 1;
  }

  // Text forms

  /** `0xFFFFFFFF << (32 - p)` in 32 bits, with the source's special case for zero. */
  function MaskFromPrefix(p: nat): u32
    requires p <= 32
  {
    if p == 0 then 0 else ALL_ONES * Pow2(32 - p) % 0x1_0000_0000
  }

  /** Empty for a length that is none. */
  function NetmaskFromPrefix(p: nat): string {
    if p > 32 then "" else InetNtop(MaskFromPrefix(p))
  }

  /** The out parameter is only written on success. */
  method ParseIpv4(text: string, before: u32) returns (ok: bool, hostOrder: u32)
    ensures ok <==> InetPton(CString(text)).Some?
    ensures hostOrder == if ok then InetPton(CString(text)).value else before
  {
    hostOrder := before;
    ok := false;
    var parsed := InetPton(CString(text));
    if text == "" || parsed.None? {
      return;
    }
    hostOrder := parsed.value;
    ok := true;
  }

  /** Lengths above 32 have no text. */
  lemma NoNetmaskPast32(p: nat)
    ensures NetmaskFromPrefix(p) == "" <==> p > 32
  {
    if p <= 32 {
      QuadShape(MaskFromPrefix(p));
    }
  }

  lemma ShiftedOnes(k: nat)
    requires 1 <= k <= 0x1_0000_0000
    ensures ALL_ONES * k % 0x1_0000_0000 == 0x1_0000_0000 - k
  {
    assert ALL_ONES * k == 0x1_0000_0000 * (k - 1) + (0x1_0000_0000 - k);
  }

  lemma MaskFromPrefixIsHighOnes(p: nat)
    requires p <= 32
    ensures MaskFromPrefix(p) == HighOnes(32, 32 - p)
  {
    Pow2Values();
    if p > 0 {
      Pow2Monotone(32 - p, 32);
      ShiftedOnes(Pow2(32 - p));
    } else {
      assert HighOnes(32, 32) == 0;
    }
  }

  /** A prefix length survives being written as a netmask and read back. */
  lemma PrefixThroughText(p: nat)
    requires p <= 32
    ensures InetPton(CString(NetmaskFromPrefix(p))).Some?
    ensures LeadingOnes(InetPton(CString(NetmaskFromPrefix(p))).value, 32) == p
  {
    hide InetNtop, InetPton, CString, LeadingOnes, HighOnes, MaskFromPrefix;
    var mask := MaskFromPrefix(p);
    QuadShape(mask);
    CStringWithoutNul(InetNtop(mask));
    NtopThenPton(mask);
    MaskFromPrefixIsHighOnes(p);
    LeadingOnesOfHighOnes(32 - p, 32);
  }

  /** Rebuilding a mask from its prefix length gives the mask back exactly when it is contiguous
      (section 3.1 of RFC 4632). */
  lemma MaskThroughPrefix(mask: u32)
    ensures LeadingOnes(mask, 32) <= 32
    ensures MaskFromPrefix(LeadingOnes(mask, 32)) == mask <==> Contiguous(32, mask)
  {
    var p := LeadingOnes(mask, 32);
    LeadingOnesMeaning(mask, 32);
    MaskFromPrefixIsHighOnes(p);
    HighOnesIsContiguous(32, 32 - p);
    Pow2Values();
    if Contiguous(32, mask) {
      var low := ContiguousIsHighOnes(32, mask);
      LeadingOnesOfHighOnes(low, 32);
    }
  }
}
