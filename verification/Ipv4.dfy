/**
 `inet_pton` and `inet_ntop` for IPv4: the strict dotted quad of section 3.2.2 of RFC 3986, four
 decimal octets without leading zeros.
 */
module Ipv4 {
  import opened Wrappers
  import opened Text

  type u32 = x: int | 0 <= x < 0x1_0000_0000

  function DigitChar(d: nat): char
    requires d < 10
  {
    ('0' as int + d) as char
  }

  function DigitValue(c: char): nat
    requires IsDigit(c)
  {
    c as int - '0' as int
  }

  function OctetText(n: nat): string
    requires n < 256
  {
    if n < 10 then [DigitChar(n)]
    else if n < 100 then [DigitChar(n / 10), DigitChar(n % 10)]
    else [DigitChar(n / 100), DigitChar(n / 10 % 10), DigitChar(n % 10)]
  }

  function ParseOctet(s: string): Option<nat> {
    if |s| == 1 && IsDigit(s[0]) then
      Some(DigitValue(s[0]))
    else if |s| == 2 && IsDigit(s[0]) && IsDigit(s[1]) && s[0] != '0' then
      Some(10 * DigitValue(s[0]) + DigitValue(s[1]))
    else if |s| == 3 && IsDigit(s[0]) && IsDigit(s[1]) && IsDigit(s[2]) && s[0] != '0' then
      var n := 100 * DigitValue(s[0]) + 10 * DigitValue(s[1]) + DigitValue(s[2]);
      if n < 256 then Some(n) else None
    else None
  }

  function Dotted(a: string, b: string, c: string, d: string): string {
    a + "." + b + "." + c + "." + d
  }

  function DottedOctets(a: nat, b: nat, c: nat, d: nat): string
    requires a < 256 && b < 256 && c < 256 && d < 256
  {
    Dotted(OctetText(a), OctetText(b), OctetText(c), OctetText(d))
  }

  function InetNtop(x: u32): string {
    DottedOctets(x / 0x100_0000, x / 0x1_0000 % 256, x / 0x100 % 256, x % 256)
  }

  datatype Cut = Whole | Parts(left: string, right: string)

  /** The text before and after the first dot. */
  function CutAtDot(s: string): Cut {
    var i := Find(s, '.');
    if i == |s| then Whole else Parts(s[..i], s[i + 1..])
  }

  /** The octets between the first three dots; a further dot makes the last octet malformed. */
  function InetPton(s: string): Option<u32> {
    match CutAtDot(s)
    case Whole => None
    case Parts(a, s1) =>
      match CutAtDot(s1)
      case Whole => None
      case Parts(b, s2) =>
        match CutAtDot(s2)
        case Whole => None
        case Parts(c, d) => QuadOf(ParseOctet(a), ParseOctet(b), ParseOctet(c), ParseOctet(d))
  }

  function QuadOf(a: Option<nat>, b: Option<nat>, c: Option<nat>, d: Option<nat>): Option<u32> {
    if a.Some? && b.Some? && c.Some? && d.Some? then Quad(a.value, b.value, c.value, d.value) else None
  }

  function Quad(a: nat, b: nat, c: nat, d: nat): Option<u32> {
    if a < 256 && b < 256 && c < 256 && d < 256
    then Some(0x100_0000 * a + 0x1_0000 * b + 0x100 * c + d)
    else None
  }

  lemma OctetReadsBack(n: nat)
    requires n < 256
    ensures ParseOctet(OctetText(n)) == Some(n)
  {
  }

  lemma ParsedOctetIsText(s: string)
    requires ParseOctet(s).Some?
    ensures ParseOctet(s).value < 256 && s == OctetText(ParseOctet(s).value)
  {
    if |s| == 3 {
      ThreeDigitsAreText(s[0], s[1], s[2]);
      assert s == [s[0], s[1], s[2]];
    } else if |s| == 2 {
      assert s == [s[0], s[1]];
    }
  }

  lemma ThreeDigitsAreText(x: char, y: char, z: char)
    requires IsDigit(x) && IsDigit(y) && IsDigit(z) && x != '0'
    requires 100 * DigitValue(x) + 10 * DigitValue(y) + DigitValue(z) < 256
    ensures OctetText(100 * DigitValue(x) + 10 * DigitValue(y) + DigitValue(z)) == [x, y, z]
  {
    var n := 100 * DigitValue(x) + 10 * DigitValue(y) + DigitValue(z);
    assert n / 10 == 10 * DigitValue(x) + DigitValue(y);
  }

  lemma CutConcat(a: string, b: string)
    requires '.' !in a
    ensures CutAtDot(a + "." + b) == Parts(a, b)
  {
    assert a + "." + b == a + ("." + b);
    FindConcat(a, "." + b, '.');
    assert (a + "." + b)[..|a|] == a && (a + "." + b)[|a| + 1..] == b;
  }

  lemma OctetHasNoDot(n: nat)
    requires n < 256
    ensures '.' !in OctetText(n) && NoSpace(OctetText(n)) && '/' !in OctetText(n) && 1 <= |OctetText(n)|
    ensures '\0' !in OctetText(n) && ':' !in OctetText(n) && 'a' !in OctetText(n)
  {
  }

  lemma PtonOfDotted(a: string, b: string, c: string, d: string)
    requires '.' !in a && '.' !in b && '.' !in c
    ensures InetPton(Dotted(a, b, c, d)) == QuadOf(ParseOctet(a), ParseOctet(b), ParseOctet(c), ParseOctet(d))
  {
    hide ParseOctet, QuadOf, CutAtDot, Dotted;
    var s2 := c + "." + d;
    var s1 := b + "." + s2;
    NestedDotted(a, b, c, d);
    CutConcat(a, s1);
    CutConcat(b, s2);
    CutConcat(c, d);
  }

  lemma QuadOfOctets(x: u32)
    ensures Quad(x / 0x100_0000, x / 0x1_0000 % 256, x / 0x100 % 256, x % 256) == Some(x)
  {
    assert x / 0x1_0000 == 0x100 * (x / 0x100_0000) + x / 0x1_0000 % 256;
    assert x / 0x100 == 0x100 * (x / 0x1_0000) + x / 0x100 % 256;
  }

  /** The octet texts and their values, with the definitions kept out of the way of the callers. */
  lemma TextOfOctet(n: nat) returns (t: string)
    requires n < 256
    ensures t == OctetText(n) && '.' !in t && ParseOctet(t) == Some(n)
  {
    t := OctetText(n);
    OctetHasNoDot(n);
    OctetReadsBack(n);
  }

  /** Reading what `inet_ntop` wrote gives the address back. */
  lemma NtopThenPton(x: u32)
    ensures InetPton(InetNtop(x)) == Some(x)
  {
    var a := TextOfOctet(x / 0x100_0000);
    var b := TextOfOctet(x / 0x1_0000 % 256);
    var c := TextOfOctet(x / 0x100 % 256);
    var d := TextOfOctet(x % 256);
    assert InetNtop(x) == Dotted(a, b, c, d);
    PtonOfDotted(a, b, c, d);
    QuadOfOctets(x);
  }

  lemma OctetsOfQuad(a: nat, b: nat, c: nat, d: nat)
    requires a < 256 && b < 256 && c < 256 && d < 256
    ensures var x := 0x100_0000 * a + 0x1_0000 * b + 0x100 * c + d;
            x / 0x100_0000 == a && x / 0x1_0000 % 256 == b && x / 0x100 % 256 == c && x % 256 == d
  {
    var x := 0x100_0000 * a + 0x1_0000 * b + 0x100 * c + d;
    assert x / 0x1_0000 == 0x100 * a + b;
    assert x / 0x100 == 0x1_0000 * a + 0x100 * b + c;
  }

  lemma CutRejoins(s: string)
    requires CutAtDot(s).Parts?
    ensures s == CutAtDot(s).left + "." + CutAtDot(s).right
  {
  }

  lemma NestedDotted(a: string, b: string, c: string, d: string)
    ensures a + "." + (b + "." + (c + "." + d)) == Dotted(a, b, c, d)
  {
  }

  lemma PartsOfPton(s: string, x: u32) returns (a: string, b: string, c: string, d: string)
    requires InetPton(s) == Some(x)
    ensures s == Dotted(a, b, c, d)
    ensures QuadOf(ParseOctet(a), ParseOctet(b), ParseOctet(c), ParseOctet(d)) == Some(x)
  {
    var s1, s2 := CutAtDot(s).right, CutAtDot(CutAtDot(s).right).right;
    a, b, c, d := CutAtDot(s).left, CutAtDot(s1).left, CutAtDot(s2).left, CutAtDot(s2).right;
    CutRejoins(s);
    CutRejoins(s1);
    CutRejoins(s2);
    NestedDotted(a, b, c, d);
  }

  lemma SameOctetsSameText(a: nat, b: nat, c: nat, d: nat, x: u32)
    requires x / 0x100_0000 == a && x / 0x1_0000 % 256 == b && x / 0x100 % 256 == c && x % 256 == d
    requires a < 256 && b < 256 && c < 256 && d < 256
    ensures InetNtop(x) == DottedOctets(a, b, c, d)
  {
  }

  /** The accepted texts are exactly the written ones, so dotted quads and addresses correspond one to
      one. */
  lemma PtonIffNtop(s: string, x: u32)
    ensures InetPton(s) == Some(x) <==> s == InetNtop(x)
  {
    NtopThenPton(x);
    if InetPton(s) == Some(x) {
      PtonOnlyNtop(s, x);
    }
  }

  lemma PtonOnlyNtop(s: string, x: u32)
    requires InetPton(s) == Some(x)
    ensures s == InetNtop(x)
  {
    hide ParseOctet, CutAtDot, InetPton, OctetText, Dotted, InetNtop;
    var a, b, c, d := PartsOfPton(s, x);
    ParsedOctetIsText(a);
    ParsedOctetIsText(b);
    ParsedOctetIsText(c);
    ParsedOctetIsText(d);
    OctetsOfQuad(ParseOctet(a).value, ParseOctet(b).value, ParseOctet(c).value, ParseOctet(d).value);
    SameOctetsSameText(ParseOctet(a).value, ParseOctet(b).value, ParseOctet(c).value,
                       ParseOctet(d).value, x);
  }

  lemma QuadShape(x: u32)
    ensures InetNtop(x) != "" && NoSpace(InetNtop(x))
    ensures '/' !in InetNtop(x) && '\0' !in InetNtop(x) && ':' !in InetNtop(x) && 'a' !in InetNtop(x)
  {
    OctetHasNoDot(x / 0x100_0000);
    OctetHasNoDot(x / 0x1_0000 % 256);
    OctetHasNoDot(x / 0x100 % 256);
    OctetHasNoDot(x % 256);
  }

  // What a dotted quad is

  /** The value of a text of decimal digits. */
  ghost function Decimal(t: string): int {
    if t == "" then 0 else 10 * Decimal(t[..|t| - 1]) + (t[|t| - 1] as int - '0' as int)
  }

  ghost predicate IsDecimalOctet(t: string) {
    && 1 <= |t| <= 3 && (forall i :: 0 <= i < |t| ==> '0' <= t[i] <= '9')
    && (|t| > 1 ==> t[0] != '0') && 0 <= Decimal(t) <= 255
  }

  ghost predicate IsQuadOf(s: string, x: u32, a: string, b: string, c: string, d: string) {
    && IsDecimalOctet(a) && IsDecimalOctet(b) && IsDecimalOctet(c) && IsDecimalOctet(d)
    && s == a + "." + b + "." + c + "." + d
    && x == 0x100_0000 * Decimal(a) + 0x1_0000 * Decimal(b) + 0x100 * Decimal(c) + Decimal(d)
  }

  /** Four octets in decimal without leading zeros, the most significant first. */
  ghost predicate IsDottedQuad(s: string, x: u32) {
    exists a, b, c, d :: IsQuadOf(s, x, a, b, c, d)
  }

  lemma DecimalStep(t: string)
    requires t != ""
    ensures Decimal(t) == 10 * Decimal(t[..|t| - 1]) + (t[|t| - 1] as int - '0' as int)
  {
  }

  lemma ParseOctetIff(t: string)
    ensures ParseOctet(t).Some? <==> IsDecimalOctet(t)
    ensures ParseOctet(t).Some? ==> ParseOctet(t).value == Decimal(t)
  {
    if 1 <= |t| <= 3 && forall i :: 0 <= i < |t| ==> '0' <= t[i] <= '9' {
      assert forall i :: 0 <= i < |t| ==> IsDigit(t[i]);
      DecimalStep(t);
      if |t| >= 2 {
        DecimalStep(t[..|t| - 1]);
        if |t| == 3 {
          DecimalStep(t[..1]);
          assert t[..2][..1] == t[..1] && Decimal(t[..1][..0]) == 0;
        } else {
          assert Decimal(t[..1][..0]) == 0;
        }
      }
    } else {
      assert !IsDecimalOctet(t);
    }
  }

  lemma DecimalOctetIsByte(t: string)
    requires IsDecimalOctet(t)
    ensures 0 <= Decimal(t) < 256 && '.' !in t
  {
  }

  lemma QuadOfIsRead(s: string, x: u32, a: string, b: string, c: string, d: string)
    requires IsQuadOf(s, x, a, b, c, d)
    ensures InetPton(s) == Some(x)
  {
    hide ParseOctet, Dotted, CutAtDot, InetPton, Decimal, IsDecimalOctet;
    DecimalOctetIsByte(a);
    DecimalOctetIsByte(b);
    DecimalOctetIsByte(c);
    DecimalOctetIsByte(d);
    ParseOctetIff(a);
    ParseOctetIff(b);
    ParseOctetIff(c);
    ParseOctetIff(d);
    DottedText(a, b, c, d);
    PtonOfDotted(a, b, c, d);
  }

  lemma ReadIsQuadOf(s: string, x: u32) returns (a: string, b: string, c: string, d: string)
    requires InetPton(s) == Some(x)
    ensures IsQuadOf(s, x, a, b, c, d)
  {
    hide ParseOctet, Dotted, CutAtDot, InetPton, Decimal, IsDecimalOctet;
    a, b, c, d := PartsOfPton(s, x);
    ParseOctetIff(a);
    ParseOctetIff(b);
    ParseOctetIff(c);
    ParseOctetIff(d);
    DottedText(a, b, c, d);
  }

  /** `inet_pton` accepts exactly the dotted quads, and gives the value of each. */
  lemma PtonIffDottedQuad(s: string, x: u32)
    ensures InetPton(s) == Some(x) <==> IsDottedQuad(s, x)
  {
    hide InetPton, IsQuadOf;
    if InetPton(s) == Some(x) {
      var a, b, c, d := ReadIsQuadOf(s, x);
    }
    if IsDottedQuad(s, x) {
      var a, b, c, d :| IsQuadOf(s, x, a, b, c, d);
      QuadOfIsRead(s, x, a, b, c, d);
    }
  }

  lemma DottedText(a: string, b: string, c: string, d: string)
    ensures Dotted(a, b, c, d) == a + "." + b + "." + c + "." + d
  {
  }
}
