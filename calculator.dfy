/** NetworkCalculator (exe.py): from a host address, a dotted mask and an
    optional network address, the record of derived fields (network address,
    first usable address, broadcast, binary renderings, subnet and host counts).
    The address arithmetic of the ipaddress library is written out on 32-bit
    values; texts are the dotted-decimal strings the library accepts. */
module Calculator {
  import opened Wrappers
  import opened Text
  import opened IPv4
  import Bits

  /** The exceptions the calculation can raise. */
  datatype CalcError =
    | InvalidNetmask    // NetmaskValueError: the mask is neither a netmask nor a hostmask
    | AddressOverflow   // AddressValueError: network_address + 1 beyond 255.255.255.255

  /** The dict calculate_host_count returns. */
  datatype HostInfo = HostInfo(totalIps: nat, usableHosts: nat)

  /** One record of the table, the dict process_network_entry returns, keys in
      the same order; `router` is the 'Roteador' key the GUI adds afterwards
      (None while the key is absent). */
  datatype Entry = Entry(
    hostName: string,
    ip: string,
    mask: string,
    networkIp: string,
    gateway: string,
    broadcast: string,
    ipBinary: string,
    maskBinary: string,
    networkBinary: string,
    subnetCount: nat,
    subnetRange: string,
    totalIps: nat,
    usableHosts: nat,
    router: Option<string>)

  /** An IPv4Network with strict=False: the address with its host bits cleared, and the netmask. */
  datatype Net = Net(address: bv32, netmask: bv32)
  {
    /** broadcast_address: every host bit set. */
    function Broadcast(): bv32 { address | !netmask }

    /** `a in network`. */
    predicate Contains(a: bv32) { a & netmask == address }

    predicate Between(a: bv32) { address <= a <= Broadcast() }

    predicate Cleared() { address & !netmask == 0 }

    predicate Above(a: bv32) { address < a }

    predicate Below(a: bv32) { a < Broadcast() }

    /** Strictly between the network and broadcast addresses, and in the network. */
    predicate Interior(a: bv32) { Above(a) && Below(a) && Contains(a) }

    /** network_address + 1, which the library refuses past 255.255.255.255. */
    function FirstHost(): Option<bv32>
    {
      if address == 0xFFFF_FFFF then None else Some(address + 1)
    }
  }

  /** A string IPv4Address accepts. */
  predicate IsAddressText(s: string)
  {
    ParseAddress(s).Some?
  }

  /** int(IPv4Address(s)). */
  function Addr(s: string): bv32
    requires IsAddressText(s)
  {
    FromQuad(ParseAddress(s).value)
  }

  /** The octets of a mask text. */
  function MaskQuad(mask: string): Quad
    requires IsAddressText(mask)
  {
    ParseAddress(mask).value
  }

  /** IPv4Network(f"{address}/{mask}", strict=False). */
  function MakeNetwork(address: string, mask: string): (r: Result<Net, CalcError>)
    requires IsAddressText(address) && IsAddressText(mask)
    ensures r.Ok? <==> NetworkMask(MaskQuad(mask)).Some?
    ensures r.Ok? ==> NetworkMask(MaskQuad(mask)).value == r.value.netmask && r.value == NetworkOf(Addr(address), r.value.netmask)
    ensures r.Ok? ==> IsNetmask(r.value.netmask) && r.value.Cleared() && r.value.Contains(r.value.Broadcast())
    ensures r.Ok? ==> r.value.Contains(Addr(address)) && r.value.Between(Addr(address))
  {
    match NetworkMask(MaskQuad(mask))
    case None => Err(InvalidNetmask)
    case Some(m) => Ok(NetworkOf(Addr(address), m))
  }

  /** The network of address a under netmask m: a with its host bits cleared. */
  function NetworkOf(a: bv32, m: bv32): (n: Net)
    ensures n.netmask == m && n.Cleared() && n.Contains(n.Broadcast())
    ensures n.Contains(a) && n.Between(a)
  {
    NetworkOrder(a, m);
    NetworkInside(a, m);
    Net(a & m, m)
  }

  lemma NetworkOrder(a: bv32, m: bv32)
    ensures Net(a & m, m).Between(a)
  {
    Bits.NetworkBelow(a, m);
    Bits.BroadcastAbove(a, m);
  }

  lemma NetworkInside(a: bv32, m: bv32)
    ensures Net(a & m, m).Contains(Net(a & m, m).Broadcast()) && Net(a & m, m).Cleared()
  {
    Bits.BroadcastInNetwork(a, m);
    Bits.ClearedBits(a, m);
  }

  /** str() of an address that the calculator hands back into the library. */
  function Str(a: bv32): (s: string)
    ensures IsAddressText(s) && Addr(s) == a
  {
    ParseAddressOfDotted(ToQuad(a));
    ValueRoundTrip(a);
    AddressText(a)
  }

  // ---------------------------------------------------------------- the calculate_* methods

  /** calculate_network_ip: the host address with the host bits cleared. */
  function CalculateNetworkIp(ip: string, mask: string): (r: Result<string, CalcError>)
    requires IsAddressText(ip) && IsAddressText(mask)
    ensures r.Err? <==> NetworkMask(MaskQuad(mask)).None?
    ensures r.Err? ==> r.error == InvalidNetmask
    ensures r.Ok? ==> IsAddressText(r.value) && Addr(r.value) == Addr(ip) & NetworkMask(MaskQuad(mask)).value
  {
    var n :- MakeNetwork(ip, mask);
    Ok(Str(n.address))
  }

  /** calculate_gateway: the address after the network address. */
  function CalculateGateway(networkIp: string, mask: string): (r: Result<string, CalcError>)
    requires IsAddressText(networkIp) && IsAddressText(mask)
    ensures r.Err? <==> (MakeNetwork(networkIp, mask).Err? || MakeNetwork(networkIp, mask).value.FirstHost().None?)
    ensures r.Err? ==> r.error == (if MakeNetwork(networkIp, mask).Err? then InvalidNetmask else AddressOverflow)
    ensures r.Ok? ==> IsAddressText(r.value) && Addr(r.value) == MakeNetwork(networkIp, mask).value.FirstHost().value
  {
    var n :- MakeNetwork(networkIp, mask);
    match n.FirstHost()
    case None => Err(AddressOverflow)
    case Some(g) => Ok(Str(g))
  }

  /** calculate_broadcast: the network address with every host bit set. */
  function CalculateBroadcast(networkIp: string, mask: string): (r: Result<string, CalcError>)
    requires IsAddressText(networkIp) && IsAddressText(mask)
    ensures r.Err? <==> MakeNetwork(networkIp, mask).Err?
    ensures r.Ok? ==> IsAddressText(r.value) && Addr(r.value) == MakeNetwork(networkIp, mask).value.Broadcast()
  {
    var n :- MakeNetwork(networkIp, mask);
    Ok(Str(n.Broadcast()))
  }

  /** calculate_subnet_range: "<network> - <broadcast>". */
  function CalculateSubnetRange(networkIp: string, mask: string): (r: Result<string, CalcError>)
    requires IsAddressText(networkIp) && IsAddressText(mask)
    ensures r.Err? <==> MakeNetwork(networkIp, mask).Err?
    ensures r.Ok? ==> r.value == CalculateNetworkIp(networkIp, mask).value + " - " + CalculateBroadcast(networkIp, mask).value
  {
    var n :- MakeNetwork(networkIp, mask);
    Ok(Str(n.address) + " - " + Str(n.Broadcast()))
  }

  /** The prefix length of the network class calculate_subnet_count assumes,
      chosen from the text of the mask first and from its bit count otherwise. */
  function ClassPrefix(mask: string, bits: nat): nat
  {
    if StartsWith(mask, "255.0") || mask == "255.0.0.0" then 8
    else if StartsWith(mask, "255.255.0") || mask == "255.255.0.0" then 16
    else if StartsWith(mask, "255.255.255") || mask == "255.255.255.0" then 24
    else if bits <= 8 then 8
    else if bits <= 16 then 16
    else 24
  }

  /** calculate_subnet_count: 2 to the number of mask bits beyond the class prefix, at least 1. */
  function CalculateSubnetCount(mask: string): nat
    requires IsAddressText(mask)
  {
    var bits := MaskBits(MaskQuad(mask));
    var subnetBits := bits - ClassPrefix(mask, bits);
    if subnetBits <= 0 then 1 else Pow2(subnetBits)
  }

  /** calculate_host_count: 2^(32 - mask bits) addresses, two fewer usable when more than two. */
  function CalculateHostCount(mask: string): (h: HostInfo)
    requires IsAddressText(mask)
    ensures h.usableHosts < h.totalIps
    ensures h.totalIps * Pow2(MaskBits(MaskQuad(mask))) == Pow2(32)
    ensures MaskBits(MaskQuad(mask)) <= 30 ==> h.usableHosts == h.totalIps - 2
    ensures MaskBits(MaskQuad(mask)) >= 31 ==> h.usableHosts == 0
  {
    HostCountOf(MaskBits(MaskQuad(mask)))
  }

  /** The host counts for a mask with the given number of one-bits. */
  function HostCountOf(bits: nat): (h: HostInfo)
    requires bits <= 32
    ensures h.usableHosts < h.totalIps
    ensures h.totalIps * Pow2(bits) == Pow2(32)
    ensures bits <= 30 ==> h.usableHosts == h.totalIps - 2
    ensures bits >= 31 ==> h.usableHosts == 0
  {
    var total := Pow2(32 - bits);
    Pow2Add(32 - bits, bits);
    HostBitsCount(32 - bits);
    HostInfo(total, if total > 2 then total - 2 else 0)
  }

  /** With two or more host bits there are at least four addresses; with fewer, at most two. */
  lemma HostBitsCount(n: nat)
    ensures n >= 2 ==> Pow2(n) >= 4
    ensures n < 2 ==> Pow2(n) <= 2
  {
    if n >= 2 {
      assert Pow2(n) == 4 * Pow2(n - 2);
    }
  }

  // ---------------------------------------------------------------- binary renderings

  /** The octets of an address in binary, eight digits each, joined by dots. */
  function BinaryText(q: Quad): string
  {
    Join(BinaryGroups(q), ".")
  }

  function BinaryGroups(q: Quad): (groups: seq<string>)
    ensures |groups| == 4
  {
    seq(4, i requires 0 <= i < 4 => BinDigits(q[i] as nat, 8))
  }

  /** ip_to_binary: format(int(octet), '08b') of each dot-separated part, joined by dots. */
  method IpToBinary(ip: string) returns (s: string)
    requires IsAddressText(ip)
    ensures s == BinaryText(ParseAddress(ip).value)
  {
    var octets := Split(ip, '.');
    var q := ParseAddress(ip).value;
    ParsedOctets(ip);
    var binaryOctets: seq<string> := [];
    for i := 0 to |octets|
      invariant binaryOctets == BinaryGroups(q)[..i]
    {
      binaryOctets := binaryOctets + [BinDigits(ParseDec(octets[i]), 8)];
    }
    assert binaryOctets == BinaryGroups(q);
    s := Join(binaryOctets, ".");
  }

  /** mask_to_binary: the same rendering applied to the mask. */
  method MaskToBinary(mask: string) returns (s: string)
    requires IsAddressText(mask)
    ensures s == BinaryText(MaskQuad(mask))
  {
    s := IpToBinary(mask);
  }

  // ---------------------------------------------------------------- the record

  /** `not network_ip`: no network address, or an empty one. */
  predicate Supplied(networkIp: Option<string>)
  {
    networkIp.Some? && networkIp.value != ""
  }

  /** process_network_entry: the record of every derived field, or the first exception raised. */
  function ProcessNetworkEntry(hostName: string, ip: string, mask: string, networkIp: Option<string>): (r: Result<Entry, CalcError>)
    requires IsAddressText(ip) && IsAddressText(mask)
    requires Supplied(networkIp) ==> IsAddressText(networkIp.value)
    ensures r.Ok? ==> r.value.hostName == hostName && r.value.ip == ip && r.value.mask == mask && r.value.router.None?
    ensures r.Ok? && Supplied(networkIp) ==> r.value.networkIp == networkIp.value
    ensures r.Ok? && !Supplied(networkIp) ==> CalculateNetworkIp(ip, mask) == Ok(r.value.networkIp)
  {
    var net := if Supplied(networkIp) then Ok(networkIp.value) else CalculateNetworkIp(ip, mask);
    if net.Err? then Err(net.error)
    else
      var gateway := CalculateGateway(net.value, mask);
      if gateway.Err? then Err(gateway.error)
      else
        // once the gateway is computed the network is valid, so the remaining calls cannot raise
        var broadcast := CalculateBroadcast(net.value, mask).value;
        var range := CalculateSubnetRange(net.value, mask).value;
        var hosts := CalculateHostCount(mask);
        Ok(Entry(hostName, ip, mask, net.value, gateway.value, broadcast,
                 BinaryText(ParseAddress(ip).value), BinaryText(MaskQuad(mask)), BinaryText(ParseAddress(net.value).value),
                 CalculateSubnetCount(mask), range, hosts.totalIps, hosts.usableHosts, None))
  }

  // ---------------------------------------------------------------- properties

  /** For a contiguous mask the network address is the address ANDed with the mask. */
  lemma NetworkIpOfNetmask(ip: string, mask: string)
    requires IsAddressText(ip) && IsAddressText(mask) && IsNetmask(Addr(mask))
    ensures CalculateNetworkIp(ip, mask).Ok?
    ensures Addr(CalculateNetworkIp(ip, mask).value) == Addr(ip) & Addr(mask)
  {
  }

  /** Feeding a computed network address back in changes nothing. */
  lemma NetworkIpIdempotent(ip: string, mask: string)
    requires IsAddressText(ip) && IsAddressText(mask) && CalculateNetworkIp(ip, mask).Ok?
    ensures CalculateNetworkIp(CalculateNetworkIp(ip, mask).value, mask) == CalculateNetworkIp(ip, mask)
  {
  }

  /** A supplied network address with host bits set gives the same gateway,
      broadcast and range as the network address it belongs to. */
  lemma HostBitsCleared(networkIp: string, mask: string)
    requires IsAddressText(networkIp) && IsAddressText(mask) && CalculateNetworkIp(networkIp, mask).Ok?
    ensures var cleared := CalculateNetworkIp(networkIp, mask).value;
      && CalculateGateway(cleared, mask) == CalculateGateway(networkIp, mask)
      && CalculateBroadcast(cleared, mask) == CalculateBroadcast(networkIp, mask)
      && CalculateSubnetRange(cleared, mask) == CalculateSubnetRange(networkIp, mask)
  {
    NetworkIpIdempotent(networkIp, mask);
  }

  /** Where the "first usable address" lands for a contiguous /p mask: strictly
      inside the network up to /30, on the broadcast address at /31, and outside
      the network (or past the last address) at /32. */
  lemma GatewayPlacement(a: bv32, m: bv32)
    requires IsNetmask(m)
    ensures var n := NetworkOf(a, m);
      var p := MaskBits(ToQuad(m));
      && (p <= 30 ==> n.FirstHost().Some? && n.Interior(n.FirstHost().value))
      && (p == 31 ==> n.FirstHost() == Some(n.Broadcast()))
      && (p == 32 ==> n.FirstHost().None? || !n.Contains(n.FirstHost().value))
  {
    var p := MaskBits(ToQuad(m));
    if p <= 30 {
      FirstHostInterior(a, m);
    } else if p == 31 {
      FirstHostOnBroadcast(a, m);
    } else {
      FirstHostOutside(a, m);
    }
  }

  lemma FirstHostInterior(a: bv32, m: bv32)
    requires IsNetmask(m) && MaskBits(ToQuad(m)) <= 30
    ensures NetworkOf(a, m).FirstHost() == Some((a & m) + 1)
    ensures Net(a & m, m).Interior((a & m) + 1)
  {
    HostPartOfNetmask(m);
    NotLastAddress(a, m);
    NextInterior(a, m);
  }

  lemma FirstHostOnBroadcast(a: bv32, m: bv32)
    requires IsNetmask(m) && MaskBits(ToQuad(m)) == 31
    ensures NetworkOf(a, m).FirstHost() == Some(NetworkOf(a, m).Broadcast())
  {
    HostPartOfNetmask(m);
    Bits.NextIsBroadcast(a, m);
  }

  lemma FirstHostOutside(a: bv32, m: bv32)
    requires IsNetmask(m) && MaskBits(ToQuad(m)) == 32
    ensures var g := NetworkOf(a, m).FirstHost(); g.None? || !NetworkOf(a, m).Contains(g.value)
  {
    HostPartOfNetmask(m);
    Bits.NextLeaves(a, m);
  }

  lemma NextInterior(a: bv32, m: bv32)
    requires IsNetmask(m) && !m >= 3
    ensures Net(a & m, m).Interior((a & m) + 1)
  {
    NextContained(a, m);
    NextBelow(a, m);
    NextAbove(a, m);
  }

  lemma NotLastAddress(a: bv32, m: bv32)
    requires !m >= 1
    ensures a & m != 0xFFFF_FFFF
  {
    Bits.NextAboveNetwork(a, m);
  }

  lemma NextContained(a: bv32, m: bv32)
    requires IsNetmask(m) && !m >= 1
    ensures Net(a & m, m).Contains((a & m) + 1)
  {
    Bits.NextStaysInside(a, m);
  }

  lemma NextBelow(a: bv32, m: bv32)
    requires IsNetmask(m) && !m >= 3
    ensures Net(a & m, m).Below((a & m) + 1)
  {
    Bits.NextBelowBroadcast(a, m);
  }

  lemma NextAbove(a: bv32, m: bv32)
    requires !m >= 1
    ensures Net(a & m, m).Above((a & m) + 1)
  {
    Bits.NextAboveNetwork(a, m);
    SuccessorAbove(a & m, m);
  }

  lemma SuccessorAbove(x: bv32, m: bv32)
    requires x < x + 1
    ensures Net(x, m).Above(x + 1)
  {
  }

  /** For a contiguous /p mask the subnet count is 2^(p-24) beyond /24 and 1 otherwise. */
  lemma SubnetCountOfNetmask(mask: string)
    requires IsAddressText(mask) && IsNetmask(Addr(mask))
    ensures var p := MaskBits(MaskQuad(mask));
      CalculateSubnetCount(mask) == if p > 24 then Pow2(p - 24) else 1
  {
    var q := MaskQuad(mask);
    DottedOfParseAddress(mask);
    if MaskBits(q) > 24 {
      LongMaskPrefix(q);
    } else {
      ShortMaskPrefix(q);
    }
  }

  /** Up to /24 the class prefix chosen for a netmask text is never below the mask length. */
  lemma ShortMaskPrefix(q: Quad)
    requires IsNetmask(FromQuad(q)) && MaskBits(q) <= 24
    ensures ClassPrefix(Dotted(q), MaskBits(q)) >= MaskBits(q)
  {
    var mask := Dotted(q);
    NetmaskZeroOctet(q);
    if StartsWith(mask, "255.0") || mask == "255.0.0.0" {
      assert StartsWith(mask, "255.0") by { if mask == "255.0.0.0" { assert mask[..5] == "255.0"; } }
      SecondOctetZero(q);
    } else if StartsWith(mask, "255.255.0") || mask == "255.255.0.0" {
      assert StartsWith(mask, "255.255.0") by { if mask == "255.255.0.0" { assert mask[..9] == "255.255.0"; } }
      ThirdOctetZero(q);
    }
  }

  lemma SecondOctetZero(q: Quad)
    requires StartsWith(Dotted(q), "255.0")
    ensures q[1] == 0
  {
    DottedFields(q);
    SecondFieldZero(Dec(q[0] as nat), Dec(q[1] as nat), Dec(q[2] as nat) , Dec(q[3] as nat));
  }

  lemma ThirdOctetZero(q: Quad)
    requires StartsWith(Dotted(q), "255.255.0")
    ensures q[2] == 0
  {
    DottedFields(q);
    ThirdFieldZero(Dec(q[0] as nat), Dec(q[1] as nat), Dec(q[2] as nat) , Dec(q[3] as nat));
  }

  lemma SecondFieldZero(a: string, b: string, c: string, d: string)
    requires AllDigits(a) && AllDigits(b) && |b| >= 1
    requires StartsWith(a + ['.'] + (b + ['.'] + (c + ['.'] + d)), "255.0")
    ensures b[0] == '0'
  {
    assert "255.0" == "255" + ['.'] + "0";
    FieldPrefix(a, b + ['.'] + (c + ['.'] + d), "255", "0", '.');
    LeadingChar(b, ['.'] + (c + ['.'] + d), '0');
  }

  lemma ThirdFieldZero(a: string, b: string, c: string, d: string)
    requires AllDigits(a) && AllDigits(b) && AllDigits(c) && |c| >= 1
    requires StartsWith(a + ['.'] + (b + ['.'] + (c + ['.'] + d)), "255.255.0")
    ensures c[0] == '0'
  {
    assert "255.255.0" == "255" + ['.'] + ("255" + ['.'] + "0");
    FieldPrefix(a, b + ['.'] + (c + ['.'] + d), "255", "255" + ['.'] + "0", '.');
    FieldPrefix(b, c + ['.'] + d, "255", "0", '.');
    LeadingChar(c, ['.'] + d, '0');
  }

  /** Past /24 a netmask text reads "255.255.255.<last>", which only the third branch matches. */
  lemma LongMaskPrefix(q: Quad)
    requires IsNetmask(FromQuad(q)) && MaskBits(q) > 24
    ensures ClassPrefix(Dotted(q), MaskBits(q)) == 24
  {
    NetmaskFullOctets(q);
    FullOctetsText(q);
    ThirdBranch(Dec(q[3] as nat), MaskBits(q));
  }

  lemma FullOctetsText(q: Quad)
    requires q[0] == 0xFF && q[1] == 0xFF && q[2] == 0xFF
    ensures Dotted(q) == "255.255.255." + Dec(q[3] as nat)
  {
    DottedFields(q);
    assert Dec(255) == "255" by { assert Dec(25) == "25"; }
  }

  lemma ThirdBranch(last: string, bits: nat)
    ensures ClassPrefix("255.255.255." + last, bits) == 24
  {
    var mask := "255.255.255." + last;
    assert mask[..11] == "255.255.255";
    assert mask[4] == '2' && mask[8] == '2';
    assert mask[..5] != "255.0" by { assert mask[..5][4] == '2'; }
    assert mask[..9] != "255.255.0" by { assert mask[..9][8] == '2'; }
  }

  /** ip_to_binary gives four groups of eight binary digits, each reading back as its octet. */
  lemma BinaryTextRoundTrip(q: Quad)
    ensures var groups := Split(BinaryText(q), '.');
      && |groups| == 4
      && forall i :: 0 <= i < 4 ==> |groups[i]| == 8 && IsBinaryDigits(groups[i]) && ParseBin(groups[i]) == q[i] as nat
  {
    var groups := BinaryGroups(q);
    forall i | 0 <= i < 4
      ensures '.' !in groups[i] && ParseBin(groups[i]) == q[i] as nat
    {
      assert IsBinaryDigits(groups[i]);
      assert Pow2(8) == 256;
      BinRoundTrip(q[i] as nat, 8);
    }
    SplitOfJoin(groups, '.');
  }

  /** The subnet count is always a power of two, from 1 up to 2^24. */
  lemma SubnetCountIsPowerOfTwo(mask: string)
    requires IsAddressText(mask)
    ensures exists k: nat :: k <= 24 && CalculateSubnetCount(mask) == Pow2(k)
  {
    var bits := MaskBits(MaskQuad(mask));
    var k := bits - ClassPrefix(mask, bits);
    if k <= 0 {
      assert CalculateSubnetCount(mask) == Pow2(0);
    } else {
      assert CalculateSubnetCount(mask) == Pow2(k);
    }
  }

  // ---------------------------------------------------------------- worked examples

  /** A dotted literal is the text of its octets. */
  lemma DottedLiteral(q: Quad, s: string)
    requires s == Dec(q[0] as nat) + ['.'] + (Dec(q[1] as nat) + ['.'] + (Dec(q[2] as nat) + ['.'] + Dec(q[3] as nat)))
    ensures Dotted(q) == s && ParseAddress(s) == Some(q)
  {
    DottedFields(q);
    ParseAddressOfDotted(q);
  }

  /** 255.255.255.192 (/26) gives 4 subnets, 255.255.252.0 (/22) gives 1. */
  lemma SubnetCountExamples()
    ensures IsAddressText("255.255.255.192") && CalculateSubnetCount("255.255.255.192") == 4
    ensures IsAddressText("255.255.252.0") && CalculateSubnetCount("255.255.252.0") == 1
  {
    SubnetCount26();
    SubnetCount22();
  }

  lemma SubnetCount26()
    ensures IsAddressText("255.255.255.192") && CalculateSubnetCount("255.255.255.192") == 4
  {
    Mask26Text();
    assert MaskBits([255, 255, 255, 192]) == 26;
    ThirdBranch("192", 26);
    assert Pow2(2) == 4;
  }

  lemma SubnetCount22()
    ensures IsAddressText("255.255.252.0") && CalculateSubnetCount("255.255.252.0") == 1
  {
    Mask22Text();
    assert MaskBits([255, 255, 252, 0]) == 22;
    FallThroughBranch("255.255.252.0", 22);
  }

  /** 255.255.252.0 matches none of the text branches, so its bit count chooses /24. */
  lemma FallThroughBranch(mask: string, bits: nat)
    requires mask == "255.255.252.0" && bits == 22
    ensures ClassPrefix(mask, bits) == 24
  {
    assert mask[..5] != "255.0" by { assert mask[..5][4] == '2'; }
    assert mask[..9] != "255.255.0" by { assert mask[..9][8] == '2'; }
    assert mask[..11] != "255.255.255" by { assert mask[..11][10] == '2'; }
    assert mask != "255.0.0.0" by { assert mask[4] == '2'; }
    assert mask != "255.255.0.0" by { assert mask[8] == '2'; }
    assert mask != "255.255.255.0" by { assert mask[10] == '2'; }
  }

  lemma DecLiterals()
    ensures Dec(255) == "255" && Dec(192) == "192" && Dec(252) == "252" && Dec(0) == "0"
  {
    assert Dec(25) == "25" && Dec(19) == "19";
  }

  lemma Mask26Text()
    ensures "255.255.255.192" == "255.255.255." + "192"
    ensures ParseAddress("255.255.255.192") == Some([255, 255, 255, 192])
  {
    DecLiterals();
    var s := "255" + ['.'] + ("255" + ['.'] + ("255" + ['.'] + "192"));
    assert s == "255.255.255.192";
    DottedLiteral([255, 255, 255, 192], s);
  }

  lemma Mask22Text()
    ensures ParseAddress("255.255.252.0") == Some([255, 255, 252, 0])
  {
    DecLiterals();
    var s := "255" + ['.'] + ("255" + ['.'] + ("252" + ['.'] + "0"));
    assert s == "255.255.252.0";
    DottedLiteral([255, 255, 252, 0], s);
  }

  /** The first test case: host 172.16.0.62 in 172.16.0.0 with mask 255.255.255.192. */
  lemma EntryExample(ip: string, mask: string, networkIp: string)
    requires ip == "172.16.0.62" && mask == "255.255.255.192" && networkIp == "172.16.0.0"
    ensures IsAddressText(ip) && IsAddressText(mask) && IsAddressText(networkIp)
    ensures var r := ProcessNetworkEntry("Host teste", ip, mask, Some(networkIp));
      && r.Ok?
      && r.value.networkIp == "172.16.0.0"
      && r.value.gateway == "172.16.0.1"
      && r.value.broadcast == "172.16.0.63"
      && r.value.subnetRange == "172.16.0.0 - 172.16.0.63"
      && r.value.subnetCount == 4
      && r.value.totalIps == 64 && r.value.usableHosts == 62
  {
    HostExampleText();
    Mask26Text();
    NetworkExampleText();
    ExampleDerived(networkIp, mask);
    SubnetCount26();
    ExampleHostCount(mask);
    EntryFields("Host teste", ip, mask, Some(networkIp));
  }

  /** process_network_entry fails with NetmaskValueError exactly when the mask is
      neither a netmask nor a hostmask. */
  lemma EntryInvalidMask(hostName: string, ip: string, mask: string, networkIp: Option<string>)
    requires IsAddressText(ip) && IsAddressText(mask)
    requires Supplied(networkIp) ==> IsAddressText(networkIp.value)
    ensures NetworkMask(MaskQuad(mask)).None? <==> ProcessNetworkEntry(hostName, ip, mask, networkIp) == Err(InvalidNetmask)
  {
  }

  /** With a usable mask the record fails only for a /32 network on 255.255.255.255,
      whose first host does not exist. */
  lemma EntrySucceeds(hostName: string, ip: string, mask: string, networkIp: Option<string>)
    requires IsAddressText(ip) && IsAddressText(mask)
    requires Supplied(networkIp) ==> IsAddressText(networkIp.value)
    requires NetworkMask(MaskQuad(mask)).Some? && NetworkMask(MaskQuad(mask)).value != 0xFFFF_FFFF
    ensures ProcessNetworkEntry(hostName, ip, mask, networkIp).Ok?
  {
    var m := NetworkMask(MaskQuad(mask)).value;
    var net := if Supplied(networkIp) then networkIp.value else CalculateNetworkIp(ip, mask).value;
    HostPartNonEmpty(m);
    NotLastAddress(Addr(net), m);
  }

  lemma HostPartNonEmpty(m: bv32)
    requires m != 0xFFFF_FFFF
    ensures !m >= 1
  {
  }

  /** A record's derived fields are the calculate_* results for the network address it stores. */
  lemma EntryFields(hostName: string, ip: string, mask: string, networkIp: Option<string>)
    requires IsAddressText(ip) && IsAddressText(mask)
    requires Supplied(networkIp) ==> IsAddressText(networkIp.value)
    requires ProcessNetworkEntry(hostName, ip, mask, networkIp).Ok?
    ensures var e := ProcessNetworkEntry(hostName, ip, mask, networkIp).value;
      && IsAddressText(e.networkIp)
      && CalculateGateway(e.networkIp, mask) == Ok(e.gateway)
      && CalculateBroadcast(e.networkIp, mask) == Ok(e.broadcast)
      && CalculateSubnetRange(e.networkIp, mask) == Ok(e.subnetRange)
      && e.subnetCount == CalculateSubnetCount(mask)
      && HostInfo(e.totalIps, e.usableHosts) == CalculateHostCount(mask)
      && e.ipBinary == BinaryText(ParseAddress(ip).value)
      && e.maskBinary == BinaryText(MaskQuad(mask))
      && e.networkBinary == BinaryText(ParseAddress(e.networkIp).value)
  {
  }

  lemma ExampleDerived(networkIp: string, mask: string)
    requires ParseAddress(mask) == Some([255, 255, 255, 192])
    requires ParseAddress(networkIp) == Some([172, 16, 0, 0])
    ensures CalculateGateway(networkIp, mask) == Ok("172.16.0.1")
    ensures CalculateBroadcast(networkIp, mask) == Ok("172.16.0.63")
    ensures CalculateSubnetRange(networkIp, mask) == Ok("172.16.0.0 - 172.16.0.63")
  {
    ExampleNetwork(networkIp, mask);
    GatewayExampleText();
    BroadcastExampleText();
    NetworkAddressText();
    RangeText(Str(0xAC10_0000), Str(0xAC10_003F));
  }

  lemma RangeText(x: string, y: string)
    requires x == "172.16.0.0" && y == "172.16.0.63"
    ensures x + " - " + y == "172.16.0.0 - 172.16.0.63"
  {
  }

  lemma ExampleNetwork(networkIp: string, mask: string)
    requires ParseAddress(mask) == Some([255, 255, 255, 192])
    requires ParseAddress(networkIp) == Some([172, 16, 0, 0])
    ensures MakeNetwork(networkIp, mask) == Ok(Net(0xAC10_0000, 0xFFFF_FFC0))
  {
    assert FromQuad([255, 255, 255, 192]) == 0xFFFF_FFC0;
    assert FromQuad([172, 16, 0, 0]) == 0xAC10_0000;
    assert IsNetmask(0xFFFF_FFC0);
  }

  lemma ExampleHostCount(mask: string)
    requires ParseAddress(mask) == Some([255, 255, 255, 192])
    ensures CalculateHostCount(mask) == HostInfo(64, 62)
  {
    assert MaskBits([255, 255, 255, 192]) == 26;
    assert Pow2(6) == 64;
  }

  lemma NetworkAddressText()
    ensures Str(0xAC10_0000) == "172.16.0.0"
  {
    SmallDecLiterals();
    var s := "172" + ['.'] + ("16" + ['.'] + ("0" + ['.'] + "0"));
    assert s == "172.16.0.0";
    assert ToQuad(0xAC10_0000) == [172, 16, 0, 0];
    DottedLiteral([172, 16, 0, 0], s);
  }

  lemma SmallDecLiterals()
    ensures Dec(172) == "172" && Dec(16) == "16" && Dec(0) == "0" && Dec(1) == "1" && Dec(62) == "62" && Dec(63) == "63"
  {
    assert Dec(17) == "17";
  }

  lemma HostExampleText()
    ensures ParseAddress("172.16.0.62") == Some([172, 16, 0, 62])
  {
    SmallDecLiterals();
    var s := "172" + ['.'] + ("16" + ['.'] + ("0" + ['.'] + "62"));
    assert s == "172.16.0.62";
    DottedLiteral([172, 16, 0, 62], s);
  }

  lemma NetworkExampleText()
    ensures ParseAddress("172.16.0.0") == Some([172, 16, 0, 0])
  {
    SmallDecLiterals();
    var s := "172" + ['.'] + ("16" + ['.'] + ("0" + ['.'] + "0"));
    assert s == "172.16.0.0";
    DottedLiteral([172, 16, 0, 0], s);
  }

  lemma GatewayExampleText()
    ensures Str(0xAC10_0001) == "172.16.0.1"
  {
    SmallDecLiterals();
    var s := "172" + ['.'] + ("16" + ['.'] + ("0" + ['.'] + "1"));
    assert s == "172.16.0.1";
    assert ToQuad(0xAC10_0001) == [172, 16, 0, 1];
    DottedLiteral([172, 16, 0, 1], s);
  }

  lemma BroadcastExampleText()
    ensures Str(0xAC10_003F) == "172.16.0.63"
  {
    SmallDecLiterals();
    var s := "172" + ['.'] + ("16" + ['.'] + ("0" + ['.'] + "63"));
    assert s == "172.16.0.63";
    assert ToQuad(0xAC10_003F) == [172, 16, 0, 63];
    DottedLiteral([172, 16, 0, 63], s);
  }

  // ---------------------------------------------------------------- arithmetic helpers

  lemma {:induction false} Pow2Add(a: nat, b: nat)
    ensures Pow2(a) * Pow2(b) == Pow2(a + b)
    decreases a
  {
    if a > 0 {
      Pow2Add(a - 1, b);
    }
  }
}
