/** The routing view of the GUI (update_routing_table in exe_gui.py), without its widgets:
    the routers named by the records, in sorted order, each with a synthetic /30 WAN link
    numbered up from 100.0.0.0; the records grouped by router; and, router by router, the
    rows of its internal table, of its inbound table (WAN->LAN) and of its outbound table
    (LAN->WAN). */
module Routing {
  import opened Wrappers
  import opened Text
  import opened IPv4
  import opened Bits
  import opened Calculator

  /** The router of a record that has none. */
  const DefaultRouter: string := "Roteador Padrão"

  /** net.get("Roteador", "Roteador Padrão"). */
  function RouterOf(e: Entry): string
  {
    if e.router.Some? then e.router.value else DefaultRouter
  }

  // ---------------------------------------------------------------- sorted router names

  /** Python's a < b on str: code point by code point, a proper prefix first. */
  predicate Less(a: string, b: string)
  {
    if a == [] then b != []
    else if b == [] then false
    else if a[0] != b[0] then a[0] < b[0]
    else Less(a[1..], b[1..])
  }

  lemma {:induction false} LessIrreflexive(a: string)
    ensures !Less(a, a)
  {
    if a != [] {
      LessIrreflexive(a[1..]);
    }
  }

  lemma {:induction false} LessTransitive(a: string, b: string, c: string)
    requires Less(a, b) && Less(b, c)
    ensures Less(a, c)
  {
    if a != [] && b != [] && c != [] && a[0] == b[0] && b[0] == c[0] {
      LessTransitive(a[1..], b[1..], c[1..]);
    }
  }

  lemma {:induction false} LessTotal(a: string, b: string)
    requires a != b
    ensures Less(a, b) || Less(b, a)
  {
    if a != [] && b != [] && a[0] == b[0] {
      assert a == [a[0]] + a[1..] && b == [b[0]] + b[1..];
      LessTotal(a[1..], b[1..]);
    }
  }

  /** Every name before every later one: sorted, and so without repeats. */
  predicate StrictlySorted(names: seq<string>)
  {
    forall i, j :: 0 <= i < j < |names| ==> Less(names[i], names[j])
  }

  /** A name put into its place in a sorted list of names, unless it is there already. */
  function Insert(names: seq<string>, x: string): (r: seq<string>)
    requires StrictlySorted(names)
    ensures StrictlySorted(r)
    ensures forall y :: y in r <==> y in names || y == x
    ensures x in names ==> r == names
  {
    if names == [] then [x]
    else if x == names[0] then names
    else if Less(x, names[0]) then
      LessIrreflexive(x);
      assert forall j :: 0 < j < |names| ==> Less(x, names[j]) by {
        forall j | 0 < j < |names| ensures Less(x, names[j]) {
          LessTransitive(x, names[0], names[j]);
        }
      }
      [x] + names
    else
      LessTotal(x, names[0]);
      var rest := Insert(names[1..], x);
      assert forall y :: y in names <==> y == names[0] || y in names[1..] by {
        assert names == [names[0]] + names[1..];
      }
      forall k | 0 <= k < |rest| ensures Less(names[0], rest[k]) {
        assert rest[k] in rest;
        if rest[k] != x {
          var j :| 0 <= j < |names[1..]| && names[1..][j] == rest[k];
          assert names[j + 1] == rest[k];
        }
      }
      [names[0]] + rest
  }

  /** sorted(set(router of each record)): every router name once, in increasing order. */
  function Routers(entries: seq<Entry>): (names: seq<string>)
    ensures StrictlySorted(names)
    ensures forall name :: name in names <==> exists e :: e in entries && RouterOf(e) == name
  {
    if entries == [] then []
    else
      var init := entries[..|entries| - 1];
      var last := entries[|entries| - 1];
      assert forall e :: e in entries <==> e in init || e == last by {
        assert entries == init + [last];
      }
      Insert(Routers(init), RouterOf(last))
  }

  /** A sorted list holds each name at one index only. */
  lemma SortedDistinct(names: seq<string>, i: nat, j: nat)
    requires StrictlySorted(names) && i < |names| && j < |names| && i != j
    ensures names[i] != names[j]
  {
    if i < j {
      LessIrreflexive(names[i]);
    } else {
      LessIrreflexive(names[j]);
    }
  }

  // ---------------------------------------------------------------- WAN links

  /** The first WAN block, 100.0.0.0, as a 32-bit value. */
  const WanBase: nat := 0x6400_0000

  /** The value of four octets, most significant first. The WAN addresses are counted in
      `nat` (100.0.0.0 + 4 per router), so this and NatQuad/NatText restate
      IPv4.FromQuad/ToQuad and Calculator.Str over `nat`, which keeps nat-to-bv32
      conversions out of the WAN arithmetic. */
  function QuadValue(q: Quad): nat
  {
    ((q[0] as nat * 0x100 + q[1] as nat) * 0x100 + q[2] as nat) * 0x100 + q[3] as nat
  }

  /** IPv4Address(n): the octets of a value below 2^32. */
  function NatQuad(n: nat): (q: Quad)
    requires n < 0x1_0000_0000
    ensures QuadValue(q) == n
  {
    var rest := n / 0x100;
    var top := rest / 0x100;
    Digits(n, rest, top);
    [Low(top / 0x100), Low(top), Low(rest), Low(n)]
  }

  /** A value below 2^32 is its four base-256 digits, the top one below 256. */
  lemma Digits(n: nat, rest: nat, top: nat)
    requires n < 0x1_0000_0000 && rest == n / 0x100 && top == rest / 0x100
    ensures (((top / 0x100) % 0x100 * 0x100 + top % 0x100) * 0x100 + rest % 0x100) * 0x100 + n % 0x100 == n
  {
    assert n == rest * 0x100 + n % 0x100;
    assert rest == top * 0x100 + rest % 0x100;
    assert top == (top / 0x100) * 0x100 + top % 0x100;
    assert top / 0x100 < 0x100;
  }

  /** The low 8 bits of a number, as an octet. */
  function Low(n: nat): (o: Octet)
    ensures o as nat == n % 0x100
  {
    ByteRoundTrip(n % 0x100);
    (n % 0x100) as bv8
  }

  /** Four octets are the only ones with their value. */
  lemma NatQuadUnique(n: nat, q: Quad)
    requires n < 0x1_0000_0000 && QuadValue(q) == n
    ensures NatQuad(n) == q
  {
    var p := NatQuad(n);
    var high := q[0] as nat * 0x100 + q[1] as nat;
    var rest := high * 0x100 + q[2] as nat;
    DigitSplit(n, rest, q[3] as nat);
    DigitSplit(rest, high, q[2] as nat);
    DigitSplit(high, q[0] as nat, q[1] as nat);
    SameOctet(p[0], q[0]);
    SameOctet(p[1], q[1]);
    SameOctet(p[2], q[2]);
    SameOctet(p[3], q[3]);
  }

  lemma DigitSplit(x: nat, high: nat, low: nat)
    requires low < 0x100 && x == high * 0x100 + low
    ensures x / 0x100 == high && x % 0x100 == low
  {
  }

  lemma SameOctet(a: Octet, b: Octet)
    requires a as nat == b as nat
    ensures a == b
  {
    WordBack(a);
    WordBack(b);
  }

  /** str(IPv4Address(n)). */
  function NatText(n: nat): string
    requires n < 0x1_0000_0000
  {
    Dotted(NatQuad(n))
  }

  /** The text of a WAN address reads back as the octets of the same value. */
  lemma NatTextReadsBack(n: nat)
    requires n < 0x1_0000_0000
    ensures ParseAddress(NatText(n)).Some? && QuadValue(ParseAddress(NatText(n)).value) == n
  {
    ParseAddressOfDotted(NatQuad(n));
  }

  /** One row of the WAN table: the router and the first address of its /30 block. */
  datatype WanLink = WanLink(router: string, block: nat)
  {
    /** network_address + 1, the provider's side of the link and the outbound next hop. */
    function IspGateway(): nat { block + 1 }

    /** network_address + 2, the router's side of the link. */
    function RouterAddress(): nat { block + 2 }

    /** The values the WAN table shows: the block as n.n.n.n/30, the router's address, the ISP's. */
    function Texts(): (texts: seq<string>)
      requires block + 3 < 0x1_0000_0000
      ensures |texts| == 4 && texts[0] == router
    {
      [router, NatText(block) + "/30", NatText(RouterAddress()), NatText(IspGateway())]
    }
  }

  /** The block of the i-th router in sorted order: 100.0.0.0 moved on by 4 per router. */
  function WanBlock(i: nat): nat
  {
    WanBase + 4 * i
  }

  /** The addresses of the WAN blocks of n routers fit in 32 bits. */
  predicate WanFits(n: nat)
  {
    WanBlock(n) <= 0x1_0000_0000
  }

  function WanLinks(routers: seq<string>): (links: seq<WanLink>)
    ensures |links| == |routers|
  {
    seq(|routers|, i requires 0 <= i < |routers| => WanLink(routers[i], WanBlock(i)))
  }

  /** Each block is a proper /30 network: its address has the two host bits clear, so
      ip_network accepts it, and its last address still fits in 32 bits. */
  lemma WanBlockIsNetwork(n: nat, i: nat)
    requires WanFits(n) && i < n
    ensures WanBlock(i) % 4 == 0 && WanBlock(i) + 3 < 0x1_0000_0000
  {
  }

  /** The /30 blocks of two different routers share no address. */
  lemma WanBlocksDisjoint(i: nat, j: nat, a: nat, b: nat)
    requires i != j && a < 4 && b < 4
    ensures WanBlock(i) + a != WanBlock(j) + b
  {
  }

  /** The first link: 100.0.0.0/30, router 100.0.0.2, provider 100.0.0.1. */
  lemma FirstWanLink(name: string, block: nat)
    requires block == WanBlock(0)
    ensures WanLink(name, block).Texts() == [name, "100.0.0.0/30", "100.0.0.2", "100.0.0.1"]
  {
    FirstBlockAddress(block);
    FirstIspAddress(block + 1);
    FirstRouterAddress(block + 2);
    FirstBlockSlash("100.0.0.0");
  }

  lemma FirstBlockSlash(s: string)
    requires s == "100.0.0.0"
    ensures s + "/30" == "100.0.0.0/30"
  {
    assert |s + "/30"| == 12;
  }

  lemma FirstBlockAddress(n: nat)
    requires n == WanBase
    ensures NatText(n) == "100.0.0.0"
  {
    assert Dec(0) == "0";
    var s := "100" + ['.'] + ("0" + ['.'] + ("0" + ['.'] + "0"));
    assert s == "100.0.0.0";
    FirstBlockText(n, [100, 0, 0, 0], s);
  }

  lemma FirstIspAddress(n: nat)
    requires n == WanBase + 1
    ensures NatText(n) == "100.0.0.1"
  {
    assert Dec(1) == "1";
    var s := "100" + ['.'] + ("0" + ['.'] + ("0" + ['.'] + "1"));
    assert s == "100.0.0.1";
    FirstBlockText(n, [100, 0, 0, 1], s);
  }

  lemma FirstRouterAddress(n: nat)
    requires n == WanBase + 2
    ensures NatText(n) == "100.0.0.2"
  {
    assert Dec(2) == "2";
    var s := "100" + ['.'] + ("0" + ['.'] + ("0" + ['.'] + "2"));
    assert s == "100.0.0.2";
    FirstBlockText(n, [100, 0, 0, 2], s);
  }

  /** An address of the first block, as text. */
  lemma FirstBlockText(n: nat, q: Quad, s: string)
    requires q[0] == 100 && q[1] == 0 && q[2] == 0 && q[3] < 3 && n == WanBase + q[3] as nat
    requires s == "100" + ['.'] + ("0" + ['.'] + ("0" + ['.'] + Dec(q[3] as nat)))
    ensures NatText(n) == s
  {
    NatQuadUnique(n, q);
    DottedFields(q);
    assert Dec(100) == "100" by { assert Dec(10) == "10"; }
    assert Dec(0) == "0";
  }

  // ---------------------------------------------------------------- grouping

  /** routers_data[name]: the records of one router, in the order they were added. */
  function Group(entries: seq<Entry>, name: string): (g: seq<Entry>)
    ensures |g| <= |entries|
  {
    if entries == [] then []
    else
      var last := entries[|entries| - 1];
      Group(entries[..|entries| - 1], name) + (if RouterOf(last) == name then [last] else [])
  }

  /** A router's group holds exactly the records that name that router. */
  lemma {:induction false} GroupMembers(entries: seq<Entry>, name: string, e: Entry)
    ensures e in Group(entries, name) <==> e in entries && RouterOf(e) == name
  {
    if entries != [] {
      var init, last := entries[..|entries| - 1], entries[|entries| - 1];
      assert entries == init + [last];
      GroupMembers(init, name, e);
    }
  }

  /** Grouping keeps the order of the records: the group of a list of records added after
      another is the first list's group followed by the second's. */
  lemma {:induction false} GroupAppend(first: seq<Entry>, later: seq<Entry>, name: string)
    ensures Group(first + later, name) == Group(first, name) + Group(later, name)
  {
    if later != [] {
      var init, last := later[..|later| - 1], later[|later| - 1];
      assert (first + later)[..|first + later| - 1] == first + init;
      assert (first + later)[|first + later| - 1] == last;
      GroupAppend(first, init, name);
      assert Group(first + later, name) == Group(first + init, name) + (if RouterOf(last) == name then [last] else []);
    } else {
      assert first + later == first;
    }
  }

  /** The sizes of the groups of the given names, added up. */
  function GroupSizes(entries: seq<Entry>, names: seq<string>): nat
  {
    if names == [] then 0 else |Group(entries, names[0])| + GroupSizes(entries, names[1..])
  }

  /** Every record lands in exactly one group: the groups of all routers hold as many
      records as there are. */
  lemma {:induction false} GroupsPartition(entries: seq<Entry>)
    ensures GroupSizes(entries, Routers(entries)) == |entries|
  {
    if entries != [] {
      var init, last := entries[..|entries| - 1], entries[|entries| - 1];
      assert entries == init + [last];
      var r := RouterOf(last);
      var names := Routers(entries);
      GroupsPartition(init);
      if r !in Routers(init) {
        if Group(init, r) != [] {
          GroupMembers(init, r, Group(init, r)[0]);
        }
        InsertKeepsSizes(init, Routers(init), r);
      }
      SizesGrowByOne(init, last, names);
    }
  }

  /** A name no record carries adds nothing to the sizes. */
  lemma {:induction false} InsertKeepsSizes(entries: seq<Entry>, names: seq<string>, x: string)
    requires StrictlySorted(names) && Group(entries, x) == []
    ensures GroupSizes(entries, Insert(names, x)) == GroupSizes(entries, names)
  {
    if names != [] && x != names[0] && !Less(x, names[0]) {
      InsertKeepsSizes(entries, names[1..], x);
    }
  }

  /** One more record adds one to the group of its router, which the names hold once. */
  lemma {:induction false} SizesGrowByOne(init: seq<Entry>, last: Entry, names: seq<string>)
    requires StrictlySorted(names) && RouterOf(last) in names
    ensures GroupSizes(init + [last], names) == GroupSizes(init, names) + 1
  {
    assert (init + [last])[..|init|] == init;
    if names[0] == RouterOf(last) {
      assert RouterOf(last) !in names[1..] by {
        forall k | 0 < k < |names| ensures names[k] != names[0] {
          SortedDistinct(names, 0, k);
        }
      }
      SizesUnchanged(init, last, names[1..]);
    } else {
      SizesGrowByOne(init, last, names[1..]);
    }
  }

  /** One more record changes nothing for the names of other routers. */
  lemma {:induction false} SizesUnchanged(init: seq<Entry>, last: Entry, names: seq<string>)
    requires RouterOf(last) !in names
    ensures GroupSizes(init + [last], names) == GroupSizes(init, names)
  {
    assert (init + [last])[..|init|] == init;
    if names != [] {
      SizesUnchanged(init, last, names[1..]);
    }
  }

  /** The groups of the named routers other than one, added up: the records of other routers. */
  function Others(entries: seq<Entry>, name: string, exts: seq<string>): nat
  {
    if exts == [] then 0
    else (if exts[0] == name then 0 else |Group(entries, exts[0])|) + Others(entries, name, exts[1..])
  }

  /** The routers other than one own every record that one does not. */
  lemma OtherRecords(entries: seq<Entry>, name: string)
    requires name in Routers(entries)
    ensures Others(entries, name, Routers(entries)) == |entries| - |Group(entries, name)|
  {
    GroupsPartition(entries);
    OthersAndOwn(entries, name, Routers(entries));
  }

  lemma {:induction false} OthersAndOwn(entries: seq<Entry>, name: string, exts: seq<string>)
    requires StrictlySorted(exts) && name in exts
    ensures Others(entries, name, exts) + |Group(entries, name)| == GroupSizes(entries, exts)
  {
    if exts[0] == name {
      assert name !in exts[1..] by {
        forall k | 0 < k < |exts| ensures exts[k] != exts[0] {
          SortedDistinct(exts, 0, k);
        }
      }
      OthersWithoutOwn(entries, name, exts[1..]);
    } else {
      OthersAndOwn(entries, name, exts[1..]);
    }
  }

  lemma {:induction false} OthersWithoutOwn(entries: seq<Entry>, name: string, exts: seq<string>)
    requires name !in exts
    ensures Others(entries, name, exts) == GroupSizes(entries, exts)
  {
    if exts != [] {
      OthersWithoutOwn(entries, name, exts[1..]);
    }
  }

  /** Others, one router at a time from the end, as the tables walk them. */
  lemma {:induction false} OthersSnoc(entries: seq<Entry>, name: string, exts: seq<string>)
    requires exts != []
    ensures var last := exts[|exts| - 1];
      Others(entries, name, exts)
      == Others(entries, name, exts[..|exts| - 1]) + (if last == name then 0 else |Group(entries, last)|)
  {
    if |exts| > 1 {
      assert exts[1..][..|exts[1..]| - 1] == exts[..|exts| - 1][1..];
      OthersSnoc(entries, name, exts[1..]);
    }
  }

  // ---------------------------------------------------------------- route rows

  /** One line of the routing view: description, source network, destination network, next hop. */
  datatype Row = Row(description: string, source: string, destination: string, nextHop: string)

  /** The title line of a table: the description alone. */
  function Header(title: string): Row
  {
    Row(title, "", "", "")
  }

  /** f"{net['IP Rede']}/{net['Máscara']}". */
  function Subnet(e: Entry): string
  {
    e.networkIp + "/" + e.mask
  }

  function IntraRow(src: Entry, dst: Entry): Row
  {
    Row("  (INT) " + src.hostName + " -> " + dst.hostName, Subnet(src), Subnet(dst), dst.gateway)
  }

  function InRow(src: Entry, ext: string, dst: Entry): Row
  {
    Row("  (IN) De " + src.hostName + " (" + ext + ") Para " + dst.hostName, Subnet(src), Subnet(dst), dst.gateway)
  }

  function OutRow(src: Entry, dst: Entry, ext: string, hop: string): Row
  {
    Row("  (OUT) De " + src.hostName + " Para " + dst.hostName + " (" + ext + ")", Subnet(src), Subnet(dst), hop)
  }

  // ---------------------------------------------------------------- internal table

  /** The internal rows from one record: one per record of the router that differs from it. */
  function IntraFrom(src: Entry, dsts: seq<Entry>): seq<Row>
  {
    if dsts == [] then []
    else
      var last := dsts[|dsts| - 1];
      IntraFrom(src, dsts[..|dsts| - 1]) + (if src == last then [] else [IntraRow(src, last)])
  }

  /** The internal rows from each of srcs in turn. */
  function IntraPairs(srcs: seq<Entry>, nets: seq<Entry>): seq<Row>
  {
    if srcs == [] then []
    else IntraPairs(srcs[..|srcs| - 1], nets) + IntraFrom(srcs[|srcs| - 1], nets)
  }

  /** The internal table of a router: rows only when it owns more than one record. */
  function IntraRows(nets: seq<Entry>): seq<Row>
  {
    if |nets| > 1 then IntraPairs(nets, nets) else []
  }

  /** r goes from src to one of dsts that differs from it. */
  predicate FromRow(src: Entry, dsts: seq<Entry>, r: Row)
  {
    exists j :: 0 <= j < |dsts| && dsts[j] != src && r == IntraRow(src, dsts[j])
  }

  /** r goes from one of srcs to one of dsts that differs from it. */
  predicate PairRow(srcs: seq<Entry>, dsts: seq<Entry>, r: Row)
  {
    exists i :: 0 <= i < |srcs| && FromRow(srcs[i], dsts, r)
  }

  lemma {:induction false} IntraFromMembers(src: Entry, dsts: seq<Entry>, r: Row)
    ensures r in IntraFrom(src, dsts) <==> FromRow(src, dsts, r)
  {
    if dsts != [] {
      var init, last := dsts[..|dsts| - 1], dsts[|dsts| - 1];
      IntraFromMembers(src, init, r);
      if FromRow(src, dsts, r) {
        var j :| 0 <= j < |dsts| && dsts[j] != src && r == IntraRow(src, dsts[j]);
        if j < |init| {
          assert init[j] == dsts[j];
        }
      }
      if FromRow(src, init, r) {
        var j :| 0 <= j < |init| && init[j] != src && r == IntraRow(src, init[j]);
        assert dsts[j] == init[j];
      }
    }
  }

  lemma {:induction false} IntraPairsMembers(srcs: seq<Entry>, nets: seq<Entry>, r: Row)
    ensures r in IntraPairs(srcs, nets) <==> PairRow(srcs, nets, r)
  {
    if srcs != [] {
      var init, last := srcs[..|srcs| - 1], srcs[|srcs| - 1];
      IntraPairsMembers(init, nets, r);
      IntraFromMembers(last, nets, r);
      PairRowSnoc(srcs, nets, r);
    }
  }

  lemma PairRowSnoc(srcs: seq<Entry>, nets: seq<Entry>, r: Row)
    requires srcs != []
    ensures PairRow(srcs, nets, r) <==> PairRow(srcs[..|srcs| - 1], nets, r) || FromRow(srcs[|srcs| - 1], nets, r)
  {
    var init := srcs[..|srcs| - 1];
    if PairRow(srcs, nets, r) {
      var i :| 0 <= i < |srcs| && FromRow(srcs[i], nets, r);
      if i < |init| {
        assert init[i] == srcs[i];
      }
    }
    if PairRow(init, nets, r) {
      var i :| 0 <= i < |init| && FromRow(init[i], nets, r);
      assert srcs[i] == init[i];
    }
  }

  /** A row is in the internal table of a router exactly when the router owns more than one
      record and the row goes from one of them to a different one, through the destination's
      gateway; a record equal to another in every field counts as the same record. */
  lemma IntraMembers(nets: seq<Entry>, r: Row)
    ensures r in IntraRows(nets)
      <==> |nets| > 1 && exists i, j :: 0 <= i < |nets| && 0 <= j < |nets| && nets[i] != nets[j] && r == IntraRow(nets[i], nets[j])
  {
    IntraPairsMembers(nets, nets, r);
  }

  /** No two positions hold equal records. */
  predicate Distinct(s: seq<Entry>)
  {
    forall i, j :: 0 <= i < j < |s| ==> s[i] != s[j]
  }

  function Occurrences(x: Entry, s: seq<Entry>): nat
  {
    if s == [] then 0 else Occurrences(x, s[..|s| - 1]) + (if s[|s| - 1] == x then 1 else 0)
  }

  lemma {:induction false} IntraFromCount(src: Entry, dsts: seq<Entry>)
    ensures |IntraFrom(src, dsts)| + Occurrences(src, dsts) == |dsts|
  {
    if dsts != [] {
      IntraFromCount(src, dsts[..|dsts| - 1]);
    }
  }

  lemma {:induction false} Absent(x: Entry, s: seq<Entry>)
    requires x !in s
    ensures Occurrences(x, s) == 0
  {
    if s != [] {
      assert forall y :: y in s[..|s| - 1] ==> y in s;
      Absent(x, s[..|s| - 1]);
    }
  }

  lemma {:induction false} OccursOnce(s: seq<Entry>, i: nat)
    requires Distinct(s) && i < |s|
    ensures Occurrences(s[i], s) == 1
  {
    var init := s[..|s| - 1];
    if i == |s| - 1 {
      assert s[i] !in init by {
        forall k | 0 <= k < |init| ensures init[k] != s[i] {
          assert init[k] == s[k];
        }
      }
      Absent(s[i], init);
    } else {
      assert init[i] == s[i];
      OccursOnce(init, i);
    }
  }

  lemma {:induction false} IntraPairsCount(srcs: seq<Entry>, nets: seq<Entry>)
    requires Distinct(nets) && forall x :: x in srcs ==> x in nets
    ensures |IntraPairs(srcs, nets)| == |srcs| * (|nets| - 1)
  {
    if srcs != [] {
      var init, last := srcs[..|srcs| - 1], srcs[|srcs| - 1];
      assert forall x :: x in init ==> x in srcs;
      IntraPairsCount(init, nets);
      assert last in srcs;
      var j :| 0 <= j < |nets| && nets[j] == last;
      OccursOnce(nets, j);
      IntraFromCount(last, nets);
      CountStep(|IntraPairs(srcs, nets)|, |IntraPairs(init, nets)|, |IntraFrom(last, nets)|, |init|, 1, |srcs|, |nets| - 1);
    }
  }

  /** A router whose records all differ has one internal row per ordered pair of them. */
  lemma IntraCount(nets: seq<Entry>)
    requires Distinct(nets)
    ensures |IntraRows(nets)| == |nets| * (|nets| - 1)
  {
    if |nets| > 1 {
      IntraPairsCount(nets, nets);
    }
  }

  // ---------------------------------------------------------------- inbound table (WAN->LAN)

  /** From one record of another router to each record of this one. */
  function InFrom(src: Entry, ext: string, local: seq<Entry>): (rows: seq<Row>)
    ensures |rows| == |local|
    ensures forall j :: 0 <= j < |local| ==> rows[j] == InRow(src, ext, local[j])
  {
    if local == [] then []
    else InFrom(src, ext, local[..|local| - 1]) + [InRow(src, ext, local[|local| - 1])]
  }

  /** From each record of another router in turn. */
  function InGroup(srcs: seq<Entry>, ext: string, local: seq<Entry>): (rows: seq<Row>)
    ensures |rows| == |srcs| * |local|
  {
    if srcs == [] then []
    else
      var init := InGroup(srcs[..|srcs| - 1], ext, local);
      var last := InFrom(srcs[|srcs| - 1], ext, local);
      CountStep(|init + last|, |init|, |last|, |srcs| - 1, 1, |srcs|, |local|);
      init + last
  }

  /** The inbound table of router name: from every other router, in order, every record to
      every record of name. */
  function Inbound(entries: seq<Entry>, name: string, exts: seq<string>, local: seq<Entry>): seq<Row>
  {
    if exts == [] then []
    else
      var ext := exts[|exts| - 1];
      Inbound(entries, name, exts[..|exts| - 1], local)
        + (if ext == name then [] else InGroup(Group(entries, ext), ext, local))
  }

  /** The inbound table holds a row per local record for each record of the other routers. */
  lemma {:induction false} InboundCount(entries: seq<Entry>, name: string, exts: seq<string>, local: seq<Entry>)
    ensures |Inbound(entries, name, exts, local)| == Others(entries, name, exts) * |local|
  {
    if exts != [] {
      var init, ext := exts[..|exts| - 1], exts[|exts| - 1];
      var added := if ext == name then [] else InGroup(Group(entries, ext), ext, local);
      assert Inbound(entries, name, exts, local) == Inbound(entries, name, init, local) + added;
      InboundCount(entries, name, init, local);
      OthersSnoc(entries, name, exts);
      var g := if ext == name then 0 else |Group(entries, ext)|;
      assert |added| == g * |local|;
      CountStep(|Inbound(entries, name, exts, local)|, |Inbound(entries, name, init, local)|, |added|,
                Others(entries, name, init), g, Others(entries, name, exts), |local|);
    }
  }

  /** r leads into one of the given records, through that record's gateway. */
  predicate Delivers(r: Row, local: seq<Entry>)
  {
    exists d :: d in local && r.destination == Subnet(d) && r.nextHop == d.gateway
  }

  lemma {:induction false} InGroupHops(srcs: seq<Entry>, ext: string, local: seq<Entry>)
    ensures forall r :: r in InGroup(srcs, ext, local) ==> Delivers(r, local)
  {
    if srcs != [] {
      InGroupHops(srcs[..|srcs| - 1], ext, local);
      var last := InFrom(srcs[|srcs| - 1], ext, local);
      forall r | r in last ensures Delivers(r, local) {
        var j :| 0 <= j < |last| && last[j] == r;
        assert local[j] in local;
      }
    }
  }

  /** Every inbound row leads into one of this router's records, through its gateway. */
  lemma {:induction false} InboundHops(entries: seq<Entry>, name: string, exts: seq<string>, local: seq<Entry>)
    ensures forall r :: r in Inbound(entries, name, exts, local) ==> Delivers(r, local)
  {
    if exts != [] {
      var ext := exts[|exts| - 1];
      InboundHops(entries, name, exts[..|exts| - 1], local);
      InGroupHops(Group(entries, ext), ext, local);
    }
  }

  // ---------------------------------------------------------------- outbound table (LAN->WAN)

  /** From one local record to each record of another router, all through hop. */
  function OutTo(src: Entry, dsts: seq<Entry>, ext: string, hop: string): (rows: seq<Row>)
    ensures |rows| == |dsts|
    ensures forall k :: 0 <= k < |dsts| ==> rows[k] == OutRow(src, dsts[k], ext, hop)
  {
    if dsts == [] then []
    else OutTo(src, dsts[..|dsts| - 1], ext, hop) + [OutRow(src, dsts[|dsts| - 1], ext, hop)]
  }

  /** From one local record to every other router in turn. */
  function OutExts(entries: seq<Entry>, src: Entry, name: string, exts: seq<string>, hop: string): seq<Row>
  {
    if exts == [] then []
    else
      var ext := exts[|exts| - 1];
      OutExts(entries, src, name, exts[..|exts| - 1], hop)
        + (if ext == name then [] else OutTo(src, Group(entries, ext), ext, hop))
  }

  /** The outbound table of router name: from each of its records in turn. */
  function Outbound(entries: seq<Entry>, srcs: seq<Entry>, name: string, exts: seq<string>, hop: string): seq<Row>
  {
    if srcs == [] then []
    else Outbound(entries, srcs[..|srcs| - 1], name, exts, hop) + OutExts(entries, srcs[|srcs| - 1], name, exts, hop)
  }

  lemma {:induction false} OutExtsCount(entries: seq<Entry>, src: Entry, name: string, exts: seq<string>, hop: string)
    ensures |OutExts(entries, src, name, exts, hop)| == Others(entries, name, exts)
  {
    if exts != [] {
      OutExtsCount(entries, src, name, exts[..|exts| - 1], hop);
      OthersSnoc(entries, name, exts);
    }
  }

  /** The outbound table holds a row per record of the other routers for each local record. */
  lemma {:induction false} OutboundCount(entries: seq<Entry>, srcs: seq<Entry>, name: string, exts: seq<string>, hop: string)
    ensures |Outbound(entries, srcs, name, exts, hop)| == |srcs| * Others(entries, name, exts)
  {
    if srcs != [] {
      var init := srcs[..|srcs| - 1];
      OutboundCount(entries, init, name, exts, hop);
      OutExtsCount(entries, srcs[|srcs| - 1], name, exts, hop);
      var o := Others(entries, name, exts);
      CountStep(|Outbound(entries, srcs, name, exts, hop)|, |Outbound(entries, init, name, exts, hop)|,
                |OutExts(entries, srcs[|srcs| - 1], name, exts, hop)|, |init|, 1, |srcs|, o);
    }
  }

  lemma {:induction false} OutExtsHops(entries: seq<Entry>, src: Entry, name: string, exts: seq<string>, hop: string)
    ensures forall r :: r in OutExts(entries, src, name, exts, hop) ==> r.nextHop == hop
  {
    if exts != [] {
      OutExtsHops(entries, src, name, exts[..|exts| - 1], hop);
    }
  }

  /** Every outbound row of a router goes through the same next hop. */
  lemma {:induction false} OutboundHops(entries: seq<Entry>, srcs: seq<Entry>, name: string, exts: seq<string>, hop: string)
    ensures forall r :: r in Outbound(entries, srcs, name, exts, hop) ==> r.nextHop == hop
  {
    if srcs != [] {
      OutboundHops(entries, srcs[..|srcs| - 1], name, exts, hop);
      OutExtsHops(entries, srcs[|srcs| - 1], name, exts, hop);
    }
  }

  // ---------------------------------------------------------------- the whole view

  /** The rows of the i-th router: its internal table, then its inbound table and its
      outbound table when they are switched on and there are other routers. */
  function RouterRows(entries: seq<Entry>, routers: seq<string>, i: nat, showInbound: bool, showOutbound: bool): seq<Row>
    requires i < |routers| && WanFits(|routers|)
  {
    InternalPart(entries, routers[i])
    + InboundPart(entries, routers, routers[i], showInbound)
    + OutboundPart(entries, routers, i, showOutbound)
  }

  /** The internal table of router name, under its heading. */
  function InternalPart(entries: seq<Entry>, name: string): seq<Row>
  {
    [Header("--- Tabela Interna: " + name + " ---")] + IntraRows(Group(entries, name))
  }

  /** The inbound table of router name under its heading, when switched on and there are
      other routers. */
  function InboundPart(entries: seq<Entry>, routers: seq<string>, name: string, show: bool): seq<Row>
  {
    if show && |routers| > 1 then
      [Header("--- Tabela de Entrada (WAN->LAN): " + name + " ---")] + Inbound(entries, name, routers, Group(entries, name))
    else []
  }

  /** The outbound table of the i-th router under its heading, when switched on and there
      are other routers; its next hop is the provider's side of the router's WAN link. */
  function OutboundPart(entries: seq<Entry>, routers: seq<string>, i: nat, show: bool): seq<Row>
    requires i < |routers| && WanFits(|routers|)
  {
    if show && |routers| > 1 then
      [Header("--- Tabela de Saída (LAN->WAN): " + routers[i] + " ---")]
        + Outbound(entries, Group(entries, routers[i]), routers[i], routers, NatText(WanBlock(i) + 1))
    else []
  }

  /** The rows of the first k routers, one router after another. */
  function RoutingRows(entries: seq<Entry>, routers: seq<string>, k: nat, showInbound: bool, showOutbound: bool): seq<Row>
    requires k <= |routers| && WanFits(|routers|)
  {
    if k == 0 then []
    else
      RoutingRows(entries, routers, k - 1, showInbound, showOutbound)
        + RouterRows(entries, routers, k - 1, showInbound, showOutbound)
  }

  /** How many rows a router contributes: its header and internal rows, and per switched-on
      cross-router table a header and one row for each pair of a local record and a record
      of another router. */
  lemma RouterRowsCount(entries: seq<Entry>, routers: seq<string>, i: nat, local: seq<Entry>,
                        showInbound: bool, showOutbound: bool)
    requires routers == Routers(entries) && i < |routers| && WanFits(|routers|)
    requires local == Group(entries, routers[i])
    ensures |RouterRows(entries, routers, i, showInbound, showOutbound)|
      == 1 + |IntraRows(local)|
         + (if showInbound && |routers| > 1 then 1 + |local| * Others(entries, routers[i], routers) else 0)
         + (if showOutbound && |routers| > 1 then 1 + |local| * Others(entries, routers[i], routers) else 0)
    ensures Others(entries, routers[i], routers) == |entries| - |local|
  {
    var name := routers[i];
    var hop := NatText(WanBlock(i) + 1);
    RouterRowsLength(entries, routers, i, showInbound, showOutbound);
    OtherRecords(entries, name);
    InboundCount(entries, name, routers, local);
    OutboundCount(entries, local, name, routers, hop);
    Tally(|RouterRows(entries, routers, i, showInbound, showOutbound)|, |IntraRows(local)|,
          |Inbound(entries, name, routers, local)|, |Outbound(entries, local, name, routers, hop)|,
          Others(entries, name, routers), |local|,
          showInbound && |routers| > 1, showOutbound && |routers| > 1);
  }

  /** The parts a router's rows are made of. */
  lemma RouterRowsLength(entries: seq<Entry>, routers: seq<string>, i: nat, showInbound: bool, showOutbound: bool)
    requires i < |routers| && WanFits(|routers|)
    ensures var name := routers[i];
      var local := Group(entries, name);
      |RouterRows(entries, routers, i, showInbound, showOutbound)|
      == 1 + |IntraRows(local)|
         + (if showInbound && |routers| > 1 then 1 + |Inbound(entries, name, routers, local)| else 0)
         + (if showOutbound && |routers| > 1
            then 1 + |Outbound(entries, local, name, routers, NatText(WanBlock(i) + 1))| else 0)
  {
  }

  lemma Tally(total: nat, intra: nat, inbound: nat, outbound: nat, others: nat, n: nat, a: bool, b: bool)
    requires total == 1 + intra + (if a then 1 + inbound else 0) + (if b then 1 + outbound else 0)
    requires inbound == others * n && outbound == n * others
    ensures total == 1 + intra + (if a then 1 + n * others else 0) + (if b then 1 + n * others else 0)
  {
  }

  // ---------------------------------------------------------------- update_routing_table

  /** The WAN links and the rows of the routing view, for the records in the order they
      were added and the two check boxes. */
  method UpdateRoutingTable(entries: seq<Entry>, showInbound: bool, showOutbound: bool)
    returns (links: seq<WanLink>, rows: seq<Row>)
    requires WanFits(|Routers(entries)|)
    ensures links == WanLinks(Routers(entries))
    ensures rows == RoutingRows(entries, Routers(entries), |Routers(entries)|, showInbound, showOutbound)
    ensures entries == [] ==> links == [] && rows == []
  {
    links, rows := [], [];
    if entries == [] {
      return;
    }
    var routers := Routers(entries);
    var wanInfo;
    links, wanInfo := AssignWanLinks(routers);
    forall e | e in entries
      ensures RouterOf(e) in routers
    {
    }
    var routersData := GroupByRouter(entries, routers);
    rows := RouterTables(entries, routers, routersData, wanInfo, showInbound, showOutbound);
  }

  /** The tables of every router, one router after another. */
  method RouterTables(entries: seq<Entry>, routers: seq<string>, routersData: map<string, seq<Entry>>,
                      wanInfo: map<string, nat>, showInbound: bool, showOutbound: bool)
    returns (rows: seq<Row>)
    requires WanFits(|routers|)
    requires forall name :: name in routers ==> name in routersData && routersData[name] == Group(entries, name)
    requires forall j :: 0 <= j < |routers| ==> routers[j] in wanInfo && wanInfo[routers[j]] == WanBlock(j) + 1
    ensures rows == RoutingRows(entries, routers, |routers|, showInbound, showOutbound)
  {
    rows := [];
    for i := 0 to |routers|
      invariant rows == RoutingRows(entries, routers, i, showInbound, showOutbound)
    {
      var block := RouterTable(entries, routers, i, routersData, wanInfo, showInbound, showOutbound);
      rows := rows + block;
    }
  }

  /** One /30 block per router in sorted order, 4 addresses apart from 100.0.0.0, and the
      provider's address of each router's link. */
  method AssignWanLinks(routers: seq<string>) returns (links: seq<WanLink>, wanInfo: map<string, nat>)
    requires StrictlySorted(routers)
    ensures links == WanLinks(routers)
    ensures forall j :: 0 <= j < |routers| ==> routers[j] in wanInfo && wanInfo[routers[j]] == WanBlock(j) + 1
  {
    links, wanInfo := [], map[];
    var currentWanIp: nat := WanBase;
    for i := 0 to |routers|
      invariant currentWanIp == WanBlock(i)
      invariant links == WanLinks(routers)[..i]
      invariant forall j :: 0 <= j < i ==> routers[j] in wanInfo && wanInfo[routers[j]] == WanBlock(j) + 1
    {
      forall j | 0 <= j < i ensures routers[j] != routers[i] {
        SortedDistinct(routers, j, i);
      }
      links := links + [WanLink(routers[i], currentWanIp)];
      wanInfo := wanInfo[routers[i] := currentWanIp + 1];
      currentWanIp := currentWanIp + 4;
    }
  }

  /** routers_data: the records of each router, in the order they were added. */
  method GroupByRouter(entries: seq<Entry>, routers: seq<string>) returns (routersData: map<string, seq<Entry>>)
    requires forall e :: e in entries ==> RouterOf(e) in routers
    ensures forall name :: name in routers ==> name in routersData && routersData[name] == Group(entries, name)
  {
    routersData := map name | name in routers :: [];
    for k := 0 to |entries|
      invariant forall name :: name in routers ==> name in routersData && routersData[name] == Group(entries[..k], name)
    {
      var net := entries[k];
      assert net in entries;
      var key := RouterOf(net);
      GroupSnoc(entries, k);
      routersData := routersData[key := routersData[key] + [net]];
    }
    assert entries[..|entries|] == entries;
  }

  lemma GroupSnoc(entries: seq<Entry>, k: nat)
    requires k < |entries|
    ensures forall name ::
      Group(entries[..k + 1], name) == Group(entries[..k], name) + (if RouterOf(entries[k]) == name then [entries[k]] else [])
  {
    assert entries[..k + 1][..k] == entries[..k];
  }

  /** The tables of the i-th router: the internal one, then the inbound and the outbound one
      when switched on and there are other routers. */
  method RouterTable(entries: seq<Entry>, routers: seq<string>, i: nat, routersData: map<string, seq<Entry>>,
                     wanInfo: map<string, nat>, showInbound: bool, showOutbound: bool)
    returns (block: seq<Row>)
    requires i < |routers| && WanFits(|routers|)
    requires forall name :: name in routers ==> name in routersData && routersData[name] == Group(entries, name)
    requires routers[i] in wanInfo && wanInfo[routers[i]] == WanBlock(i) + 1
    ensures block == RouterRows(entries, routers, i, showInbound, showOutbound)
  {
    var routerName := routers[i];
    var networks := routersData[routerName];
    var internal := InternalSection(routerName, networks, entries);
    var inPart: seq<Row> := [];
    if showInbound && |routers| > 1 {
      inPart := InboundSection(routerName, networks, routers, routersData, entries);
    }
    var outPart: seq<Row> := [];
    if showOutbound && |routers| > 1 {
      var srcGateway := wanInfo[routerName];
      outPart := OutboundSection(i, networks, routers, routersData, NatText(srcGateway), entries);
    }
    block := internal + inPart + outPart;
  }

  method InternalSection(routerName: string, networks: seq<Entry>, ghost entries: seq<Entry>) returns (part: seq<Row>)
    requires networks == Group(entries, routerName)
    ensures part == InternalPart(entries, routerName)
  {
    var intra: seq<Row> := [];
    if |networks| > 1 {
      intra := IntraTable(networks);
    }
    part := [Header("--- Tabela Interna: " + routerName + " ---")] + intra;
  }

  method InboundSection(routerName: string, networks: seq<Entry>, routers: seq<string>,
                        routersData: map<string, seq<Entry>>, ghost entries: seq<Entry>)
    returns (part: seq<Row>)
    requires |routers| > 1 && networks == Group(entries, routerName)
    requires forall name :: name in routers ==> name in routersData && routersData[name] == Group(entries, name)
    ensures part == InboundPart(entries, routers, routerName, true)
  {
    var inbound := InboundTable(routerName, networks, routers, routersData, entries);
    part := [Header("--- Tabela de Entrada (WAN->LAN): " + routerName + " ---")] + inbound;
  }

  method OutboundSection(i: nat, networks: seq<Entry>, routers: seq<string>,
                         routersData: map<string, seq<Entry>>, srcGateway: string, ghost entries: seq<Entry>)
    returns (part: seq<Row>)
    requires 1 < |routers| && i < |routers| && WanFits(|routers|)
    requires networks == Group(entries, routers[i]) && srcGateway == NatText(WanBlock(i) + 1)
    requires forall name :: name in routers ==> name in routersData && routersData[name] == Group(entries, name)
    ensures part == OutboundPart(entries, routers, i, true)
  {
    var outbound := OutboundTable(routers[i], networks, routers, routersData, srcGateway, entries);
    part := [Header("--- Tabela de Saída (LAN->WAN): " + routers[i] + " ---")] + outbound;
  }

  /** The internal rows of a router with more than one record: every ordered pair of
      records, skipping a record paired with an equal one. */
  method IntraTable(networks: seq<Entry>) returns (rows: seq<Row>)
    requires |networks| > 1
    ensures rows == IntraRows(networks)
  {
    rows := [];
    for s := 0 to |networks|
      invariant rows == IntraPairs(networks[..s], networks)
    {
      var srcNet := networks[s];
      assert networks[..s + 1][..s] == networks[..s];
      var from := IntraPairs(networks[..s], networks);
      for d := 0 to |networks|
        invariant rows == from + IntraFrom(srcNet, networks[..d])
      {
        var dstNet := networks[d];
        assert networks[..d + 1][..d] == networks[..d];
        if srcNet == dstNet {
          continue;
        }
        rows := rows + [IntraRow(srcNet, dstNet)];
      }
      assert networks[..|networks|] == networks;
    }
    assert networks[..|networks|] == networks;
  }

  /** The inbound rows of router name, walking the other routers in sorted order (the
      order routers_data was filled in). */
  method InboundTable(name: string, networks: seq<Entry>, routers: seq<string>,
                      routersData: map<string, seq<Entry>>, ghost entries: seq<Entry>)
    returns (rows: seq<Row>)
    requires forall ext :: ext in routers ==> ext in routersData && routersData[ext] == Group(entries, ext)
    ensures rows == Inbound(entries, name, routers, networks)
  {
    rows := [];
    for t := 0 to |routers|
      invariant rows == Inbound(entries, name, routers[..t], networks)
    {
      var extRouterName := routers[t];
      assert routers[..t + 1][..t] == routers[..t];
      if name == extRouterName {
        continue;
      }
      var fromExt := InboundFrom(extRouterName, routersData[extRouterName], networks);
      rows := rows + fromExt;
    }
    assert routers[..|routers|] == routers;
  }

  /** From every record of one other router to every local record. */
  method InboundFrom(ext: string, extNetworks: seq<Entry>, networks: seq<Entry>) returns (rows: seq<Row>)
    ensures rows == InGroup(extNetworks, ext, networks)
  {
    rows := [];
    for s := 0 to |extNetworks|
      invariant rows == InGroup(extNetworks[..s], ext, networks)
    {
      var srcNet := extNetworks[s];
      assert extNetworks[..s + 1][..s] == extNetworks[..s];
      var before := rows;
      for d := 0 to |networks|
        invariant rows == before + InFrom(srcNet, ext, networks[..d])
      {
        assert networks[..d + 1][..d] == networks[..d];
        rows := rows + [InRow(srcNet, ext, networks[d])];
      }
      assert networks[..|networks|] == networks;
    }
    assert extNetworks[..|extNetworks|] == extNetworks;
  }

  /** The outbound rows of router name: from each local record to every record of every
      other router, all through the provider's side of name's WAN link. */
  method OutboundTable(name: string, networks: seq<Entry>, routers: seq<string>,
                       routersData: map<string, seq<Entry>>, srcGateway: string, ghost entries: seq<Entry>)
    returns (rows: seq<Row>)
    requires forall ext :: ext in routers ==> ext in routersData && routersData[ext] == Group(entries, ext)
    ensures rows == Outbound(entries, networks, name, routers, srcGateway)
  {
    rows := [];
    for s := 0 to |networks|
      invariant rows == Outbound(entries, networks[..s], name, routers, srcGateway)
    {
      assert networks[..s + 1][..s] == networks[..s];
      var fromSrc := OutboundFrom(networks[s], name, routers, routersData, srcGateway, entries);
      rows := rows + fromSrc;
    }
    assert networks[..|networks|] == networks;
  }

  /** The outbound rows from one local record, router by router, skipping name itself. */
  method OutboundFrom(srcNet: Entry, name: string, routers: seq<string>,
                      routersData: map<string, seq<Entry>>, srcGateway: string, ghost entries: seq<Entry>)
    returns (rows: seq<Row>)
    requires forall ext :: ext in routers ==> ext in routersData && routersData[ext] == Group(entries, ext)
    ensures rows == OutExts(entries, srcNet, name, routers, srcGateway)
  {
    rows := [];
    for t := 0 to |routers|
      invariant rows == OutExts(entries, srcNet, name, routers[..t], srcGateway)
    {
      var extRouterName := routers[t];
      assert routers[..t + 1][..t] == routers[..t];
      if name == extRouterName {
        continue;
      }
      var toExt := OutboundTo(srcNet, routersData[extRouterName], extRouterName, srcGateway);
      rows := rows + toExt;
    }
    assert routers[..|routers|] == routers;
  }

  /** The outbound rows from one local record to each record of one other router. */
  method OutboundTo(srcNet: Entry, extNetworks: seq<Entry>, extRouterName: string, srcGateway: string)
    returns (rows: seq<Row>)
    ensures rows == OutTo(srcNet, extNetworks, extRouterName, srcGateway)
  {
    rows := [];
    for d := 0 to |extNetworks|
      invariant rows == OutTo(srcNet, extNetworks[..d], extRouterName, srcGateway)
    {
      assert extNetworks[..d + 1][..d] == extNetworks[..d];
      rows := rows + [OutRow(srcNet, extNetworks[d], extRouterName, srcGateway)];
    }
    assert extNetworks[..|extNetworks|] == extNetworks;
  }

  /** total = o * n + g * n when the count c is o + g: total = c * n. */
  lemma CountStep(total: nat, a: nat, b: nat, o: nat, g: nat, c: nat, n: nat)
    requires total == a + b && a == o * n && b == g * n && c == o + g
    ensures total == c * n
  {
  }

}
