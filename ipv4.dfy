/** Facts about machine words that the address arithmetic needs, proved in a
    module of their own so that the solver sees nothing else while proving them. */
module Bits {
  /** A number below 256 survives the trip through an 8-bit word. */
  lemma ByteRoundTrip(n: nat)
    requires n < 256
    ensures (n as bv8) as int == n
  {
    var o := CountUp(n);
    WordBack(o);
  }

  /** The 8-bit word of value n, reached by counting up from zero. */
  function CountUp(n: nat): (o: bv8)
    requires n < 256
    ensures o as int == n
  {
    if n == 0 then 0 else
      var x := CountUp(n - 1);
      BelowTop(x);
      Increment(x);
      x + 1
  }

  lemma Increment(x: bv8)
    requires x < 255
    ensures (x + 1) as int == x as int + 1
  {
  }

  lemma BelowTop(x: bv8)
    ensures x < 255 <==> x as int < 255
  {
  }

  lemma WordBack(o: bv8)
    ensures (o as int) as bv8 == o
  {
  }

  /** The network of a with mask m is a & m; its broadcast address is (a & m) | !m.
      Both lie in the network, and a lies between them. */
  lemma NetworkBounds(a: bv32, m: bv32)
    ensures (a & m) & !m == 0 && (a & m) & m == a & m
    ensures ((a & m) | !m) & m == a & m
    ensures a & m <= a <= (a & m) | !m
  {
    ClearedBits(a, m);
    BroadcastInNetwork(a, m);
    NetworkBelow(a, m);
    BroadcastAbove(a, m);
  }

  lemma ClearedBits(a: bv32, m: bv32)
    ensures (a & m) & !m == 0 && (a & m) & m == a & m
  {
  }

  lemma BroadcastInNetwork(a: bv32, m: bv32)
    ensures ((a & m) | !m) & m == a & m
  {
  }

  lemma NetworkBelow(a: bv32, m: bv32)
    ensures a & m <= a
  {
  }

  lemma BroadcastAbove(a: bv32, m: bv32)
    ensures a <= (a & m) | !m
  {
  }

  // Where network + 1 falls, by the size of the host part !m of a contiguous
  // mask: inside and below the broadcast address with two host bits or more,
  // on the broadcast address with one, outside the network (or past the top) with none.

  lemma NextStaysInside(a: bv32, m: bv32)
    requires (!m) & ((!m) + 1) == 0 && !m >= 1
    ensures ((a & m) + 1) & m == a & m
  {
  }

  lemma NextBelowBroadcast(a: bv32, m: bv32)
    requires (!m) & ((!m) + 1) == 0 && !m >= 3
    ensures (a & m) + 1 < (a & m) | !m
  {
  }

  lemma NextAboveNetwork(a: bv32, m: bv32)
    requires !m >= 1
    ensures a & m < (a & m) + 1
  {
  }

  lemma NextIsBroadcast(a: bv32, m: bv32)
    requires !m == 1
    ensures (a & m) + 1 == (a & m) | !m
  {
  }

  lemma NextLeaves(a: bv32, m: bv32)
    requires !m == 0
    ensures a & m == 0xFFFF_FFFF || ((a & m) + 1) & m != a & m
  {
  }
}

/** IPv4 addresses as Python's ipaddress library handles them: a 32-bit value,
    its four octets, the dotted-decimal text, and netmasks. */
module IPv4 {
  import opened Wrappers
  import opened Text
  import Bits

  type Octet = bv8

  /** The four octets of an address, most significant first. */
  type Quad = q: seq<Octet> | |q| == 4 witness [0, 0, 0, 0]

  /** int(IPv4Address): the octets read as one 32-bit big-endian value. */
  function FromQuad(q: Quad): bv32
  {
    ((q[0] as bv32) << 24) | ((q[1] as bv32) << 16) | ((q[2] as bv32) << 8) | (q[3] as bv32)
  }

  /** IPv4Address(a).packed: the octets of a 32-bit value. */
  function ToQuad(a: bv32): Quad
  {
    [(a >> 24) as bv8, ((a >> 16) & 0xFF) as bv8, ((a >> 8) & 0xFF) as bv8, (a & 0xFF) as bv8]
  }

  lemma QuadRoundTrip(q: Quad)
    ensures ToQuad(FromQuad(q)) == q
  {
  }

  lemma ValueRoundTrip(a: bv32)
    ensures FromQuad(ToQuad(a)) == a
  {
  }

  // ---------------------------------------------------------------- text form

  function OctetTexts(q: Quad): (parts: seq<string>)
    ensures |parts| == 4
  {
    [Dec(q[0] as nat), Dec(q[1] as nat), Dec(q[2] as nat), Dec(q[3] as nat)]
  }

  /** str(IPv4Address): the octets in decimal, joined by dots. */
  function Dotted(q: Quad): string
  {
    Join(OctetTexts(q), ".")
  }

  function AddressText(a: bv32): string
  {
    Dotted(ToQuad(a))
  }

  /** One octet as the library's parser accepts it: one to three ASCII digits,
      no leading zero, value at most 255. */
  predicate IsOctetText(s: string)
  {
    IsCanonicalDec(s) && |s| <= 3 && ParseDec(s) <= 255
  }

  /** The value of an accepted octet text. */
  function OctetValue(p: string): Octet
    requires IsOctetText(p)
  {
    ParseDec(p) as bv8
  }

  /** IPv4Address(s) for a str argument: exactly four dot-separated octets;
      anything else raises AddressValueError (None here). */
  function ParseAddress(s: string): Option<Quad>
  {
    ParseOctets(Split(s, '.'))
  }

  function ParseOctets(parts: seq<string>): Option<Quad>
  {
    if |parts| == 4 && forall i :: 0 <= i < 4 ==> IsOctetText(parts[i]) then
      Some([OctetValue(parts[0]), OctetValue(parts[1]), OctetValue(parts[2]), OctetValue(parts[3])])
    else None
  }

  lemma OctetTextOk(o: Octet)
    ensures IsOctetText(Dec(o as nat)) && '.' !in Dec(o as nat)
    ensures OctetValue(Dec(o as nat)) == o
  {
    DecIsCanonical(o as nat);
    DecShort(o as nat);
    DecRoundTrip(o as nat);
    var s := Dec(o as nat);
    assert forall i :: 0 <= i < |s| ==> s[i] != '.' by {
      forall i | 0 <= i < |s| ensures s[i] != '.' { assert IsDigit(s[i]); }
    }
  }

  lemma OctetValueText(p: string)
    requires IsOctetText(p)
    ensures Dec(OctetValue(p) as nat) == p
  {
    Bits.ByteRoundTrip(ParseDec(p));
    DecOfParseDec(p);
  }

  lemma OctetTextsOk(q: Quad)
    ensures forall i :: 0 <= i < 4 ==> IsOctetText(OctetTexts(q)[i]) && '.' !in OctetTexts(q)[i]
    ensures ParseOctets(OctetTexts(q)) == Some(q)
  {
    var parts := OctetTexts(q);
    forall i | 0 <= i < 4
      ensures IsOctetText(parts[i]) && '.' !in parts[i] && OctetValue(parts[i]) == q[i]
    {
      OctetTextOk(q[i]);
    }
    QuadOfValues(parts, q);
  }

  lemma QuadOfValues(parts: seq<string>, q: Quad)
    requires |parts| == 4
    requires forall i :: 0 <= i < 4 ==> IsOctetText(parts[i]) && OctetValue(parts[i]) == q[i]
    ensures ParseOctets(parts) == Some(q)
  {
    assert [OctetValue(parts[0]), OctetValue(parts[1]), OctetValue(parts[2]), OctetValue(parts[3])] == q;
  }

  /** The dot-separated parts of an accepted address are the decimal texts of its octets. */
  lemma ParsedOctets(s: string)
    requires ParseAddress(s).Some?
    ensures var parts := Split(s, '.');
      |parts| == 4 && forall i :: 0 <= i < 4 ==> IsOctetText(parts[i]) && ParseDec(parts[i]) == ParseAddress(s).value[i] as nat
  {
    var parts := Split(s, '.');
    forall i | 0 <= i < 4
      ensures ParseDec(parts[i]) == ParseAddress(s).value[i] as nat
    {
      Bits.ByteRoundTrip(ParseDec(parts[i]));
    }
  }

  /** The text of an address field by field. */
  lemma DottedFields(q: Quad)
    ensures Dotted(q) == Dec(q[0] as nat) + ['.'] + (Dec(q[1] as nat) + ['.'] + (Dec(q[2] as nat) + ['.'] + Dec(q[3] as nat)))
  {
    var a, b, c, d := Dec(q[0] as nat), Dec(q[1] as nat), Dec(q[2] as nat), Dec(q[3] as nat);
    Join4(a, b, c, d, ".");
  }

  /** Reading back the text of an address gives the same address. */
  lemma ParseAddressOfDotted(q: Quad)
    ensures ParseAddress(Dotted(q)) == Some(q)
  {
    OctetTextsOk(q);
    SplitOfJoin(OctetTexts(q), '.');
  }

  /** The parser accepts only the text that str() prints, so an accepted
      string is returned unchanged by a parse-and-print round trip. */
  lemma DottedOfParseAddress(s: string)
    requires ParseAddress(s).Some?
    ensures Dotted(ParseAddress(s).value) == s
  {
    var parts := Split(s, '.');
    var q := ParseAddress(s).value;
    OctetValueText(parts[0]);
    OctetValueText(parts[1]);
    OctetValueText(parts[2]);
    OctetValueText(parts[3]);
    assert OctetTexts(q) == parts;
    JoinOfSplit(s, '.');
  }

  // ---------------------------------------------------------------- netmasks

  function Bit(b: bool): nat { if b then 1 else 0 }

  /** bin(o).count('1'): the number of set bits of an octet. */
  function OctetOnes(o: Octet): (r: nat)
    ensures r <= 8
  {
    Bit(o & 0x80 != 0) + Bit(o & 0x40 != 0) + Bit(o & 0x20 != 0) + Bit(o & 0x10 != 0)
    + Bit(o & 0x08 != 0) + Bit(o & 0x04 != 0) + Bit(o & 0x02 != 0) + Bit(o & 0x01 != 0)
  }

  /** The prefix length the calculator reads off a mask: the set bits of its four octets. */
  function MaskBits(q: Quad): (r: nat)
    ensures r <= 32
  {
    OctetOnes(q[0]) + OctetOnes(q[1]) + OctetOnes(q[2]) + OctetOnes(q[3])
  }

  /** A netmask: a run of ones followed by a run of zeros, i.e. its complement
      is 2^k - 1 for some k (the check ipaddress makes before accepting one). */
  predicate IsNetmask(m: bv32)
  {
    (!m) & ((!m) + 1) == 0
  }

  /** The octet whose top k bits are set. */
  function PrefixOctet(k: nat): Octet
    requires k <= 8
  {
    [0x00, 0x80, 0xC0, 0xE0, 0xF0, 0xF8, 0xFC, 0xFE, 0xFF][k]
  }

  /** The octets of the /n netmask (section 3.1 of RFC 4632): the top n of 32 bits set. */
  function PrefixQuad(n: nat): Quad
    requires n <= 32
  {
    if n == 32 then PartialQuad(8, 3) else PartialQuad(n % 8, n / 8)
  }

  /** Full octets before position `at`, the octet with its top k bits set at it, zero octets after. */
  function PartialQuad(k: nat, at: nat): Quad
    requires k <= 8 && at < 4
  {
    var o := PrefixOctet(k);
    if at == 0 then [o, 0, 0, 0]
    else if at == 1 then [0xFF, o, 0, 0]
    else if at == 2 then [0xFF, 0xFF, o, 0]
    else [0xFF, 0xFF, 0xFF, o]
  }

  lemma PrefixOctetOnes(k: nat)
    requires k <= 8
    ensures OctetOnes(PrefixOctet(k)) == k
  {
  }

  /** The /n mask is a netmask with exactly n one-bits. */
  lemma PrefixQuadIsNetmask(n: nat)
    requires n <= 32
    ensures IsNetmask(FromQuad(PrefixQuad(n))) && MaskBits(PrefixQuad(n)) == n
  {
    if n == 32 {
      PartialOctetIsNetmask(8, 3);
    } else {
      PartialOctetIsNetmask(n % 8, n / 8);
    }
  }

  lemma PartialOctetIsNetmask(k: nat, at: nat)
    requires k <= 8 && at < 4
    ensures IsNetmask(FromQuad(PartialQuad(k, at))) && MaskBits(PartialQuad(k, at)) == 8 * at + k
  {
    PrefixOctetOnes(k);
    PrefixOctetIsNetmask(k);
  }

  lemma PrefixOctetIsNetmask(k: nat)
    requires k <= 8
    ensures IsNetmask(FromQuad([PrefixOctet(k), 0, 0, 0]))
    ensures IsNetmask(FromQuad([0xFF, PrefixOctet(k), 0, 0]))
    ensures IsNetmask(FromQuad([0xFF, 0xFF, PrefixOctet(k), 0]))
    ensures IsNetmask(FromQuad([0xFF, 0xFF, 0xFF, PrefixOctet(k)]))
  {
  }

  /** A netmask is fixed by its number of one-bits. */
  lemma NetmaskDeterminedByBits(q: Quad, r: Quad)
    requires IsNetmask(FromQuad(q)) && IsNetmask(FromQuad(r)) && MaskBits(q) == MaskBits(r)
    ensures q == r
  {
  }

  /** So every netmask is the /n mask of its own bit count. */
  lemma NetmaskIsPrefixQuad(q: Quad)
    requires IsNetmask(FromQuad(q))
    ensures q == PrefixQuad(MaskBits(q))
  {
    PrefixQuadIsNetmask(MaskBits(q));
    NetmaskDeterminedByBits(q, PrefixQuad(MaskBits(q)));
  }

  /** How the prefix length of a netmask shows in its host part !m: up to /30 it
      leaves at least two host bits, /31 exactly one, /32 none. */
  lemma HostPartOfNetmask(m: bv32)
    requires IsNetmask(m)
    ensures MaskBits(ToQuad(m)) <= 30 <==> !m >= 3
    ensures MaskBits(ToQuad(m)) == 31 <==> !m == 1
    ensures MaskBits(ToQuad(m)) == 32 <==> !m == 0
  {
  }

  /** Past a zero octet a netmask has no more one-bits. */
  lemma NetmaskZeroOctet(q: Quad)
    requires IsNetmask(FromQuad(q))
    ensures q[1] == 0 ==> MaskBits(q) <= 8
    ensures q[2] == 0 ==> MaskBits(q) <= 16
  {
  }

  /** Beyond /24 a netmask has its first three octets full. */
  lemma NetmaskFullOctets(q: Quad)
    requires IsNetmask(FromQuad(q)) && MaskBits(q) > 24
    ensures q[0] == 0xFF && q[1] == 0xFF && q[2] == 0xFF
  {
    NetmaskIsPrefixQuad(q);
  }

  /** The netmask IPv4Network(f"{address}/{mask}") settles on for a dotted mask:
      the mask itself when it is a netmask, its complement when it is a hostmask,
      otherwise NetmaskValueError (None here). */
  function NetworkMask(mask: Quad): (r: Option<bv32>)
    ensures r.Some? ==> IsNetmask(r.value)
  {
    var m := FromQuad(mask);
    if IsNetmask(m) then Some(m) else if IsNetmask(!m) then Some(!m) else None
  }
}
