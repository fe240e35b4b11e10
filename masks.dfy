/** Mask input of the GUI (exe_gui.py): cidr_to_netmask turns a prefix length, with or
    without a leading '/', into a dotted netmask; normalize_mask sends prefix lengths
    there and lets any other text through when it reads as an IPv4 address. */
module Masks {
  import opened Wrappers
  import opened Text
  import opened IPv4

  /** The ValueErrors, with the text their messages quote. */
  datatype MaskError =
    | InvalidCidr(cidr: string)   // "Formato CIDR inválido: /{cidr}"
    | InvalidMask(mask: string)   // "Máscara inválida: {mask}"

  // ---------------------------------------------------------------- cidr_to_netmask

  /** The text int() reads: the argument without one leading '/'. */
  function CidrDigits(cidr: string): string
  {
    if StartsWith(cidr, "/") then cidr[1..] else cidr
  }

  /** The prefix length a CIDR text denotes, when int() reads it and it lies in 0..32. */
  function CidrValue(cidr: string): (n: Option<nat>)
    ensures n.Some? ==> n.value <= 32
  {
    match ParseInt(CidrDigits(cidr))
    case Some(v) => if 0 <= v <= 32 then Some(v as nat) else None
    case None => None
  }

  /** What cidr_to_netmask returns: the dotted /n netmask, or the error quoting the digits. */
  function CidrNetmask(cidr: string): Result<string, MaskError>
  {
    match CidrValue(cidr)
    case Some(n) => Ok(Dotted(PrefixQuad(n)))
    case None => Err(InvalidCidr(CidrDigits(cidr)))
  }

  /** mask_bits: n ones, then zeros up to 32 characters. */
  function MaskBitString(n: nat): (bits: string)
    requires n <= 32
    ensures |bits| == 32
  {
    Repeat('1', n) + Repeat('0', 32 - n)
  }

  /** cidr_to_netmask: mask_bits cut into 8-character chunks, each read in base 2. */
  method CidrToNetmask(cidr: string) returns (r: Result<string, MaskError>)
    ensures r == CidrNetmask(cidr)
  {
    var digits := if StartsWith(cidr, "/") then cidr[1..] else cidr;
    var value := ParseInt(digits);
    if value.None? || !(0 <= value.value <= 32) {
      return Err(InvalidCidr(digits));
    }
    var n: nat := value.value;
    var maskBits := Repeat('1', n) + Repeat('0', 32 - n);
    var octets := ChunkTexts(maskBits, n);
    r := Ok(Join(octets, "."));
  }

  /** The loop over range(0, 32, 8): each 8-character chunk of the bit string in decimal. */
  method ChunkTexts(maskBits: string, n: nat) returns (octets: seq<string>)
    requires n <= 32 && maskBits == MaskBitString(n)
    ensures octets == OctetTexts(PrefixQuad(n))
  {
    ghost var expected := OctetTexts(PrefixQuad(n));
    octets := [];
    for k := 0 to 4
      invariant octets == expected[..k]
    {
      var i := 8 * k;
      var octetBits := maskBits[i..i + 8];
      ChunkText(n, k, octetBits);
      assert expected[..k + 1] == expected[..k] + [expected[k]];
      octets := octets + [Dec(ParseBin(octetBits))];
    }
    assert expected[..4] == expected;
  }

  /** Chunk k of the /n bit string, in decimal, is the k-th dotted field of the /n netmask. */
  lemma ChunkText(n: nat, k: nat, octetBits: string)
    requires n <= 32 && k < 4 && octetBits == MaskBitString(n)[8 * k..8 * k + 8]
    ensures Dec(ParseBin(octetBits)) == OctetTexts(PrefixQuad(n))[k]
  {
    ChunkValue(n, k);
    var q := PrefixQuad(n);
    assert OctetTexts(q)[k] == Dec(q[k] as nat) by {
      if k == 0 {} else if k == 1 {} else if k == 2 {} else {}
    }
  }

  /** How many of the 8 bits of chunk i lie within the first n. */
  function ChunkOnes(n: nat, i: nat): (k: nat)
    ensures k <= 8
  {
    if n <= 8 * i then 0 else if n - 8 * i >= 8 then 8 else n - 8 * i
  }

  /** Chunk i of the /n bit string read in base 2 is octet i of the /n netmask. */
  lemma ChunkValue(n: nat, i: nat)
    requires n <= 32 && i < 4
    ensures ParseBin(MaskBitString(n)[8 * i..8 * i + 8]) == PrefixQuad(n)[i] as nat
  {
    var k := ChunkOnes(n, i);
    ChunkShape(n, i);
    OnesThenZeros(k);
    PrefixQuadOctet(n, i);
  }

  /** Chunk i is k ones followed by 8 - k zeros. */
  lemma ChunkShape(n: nat, i: nat)
    requires n <= 32 && i < 4
    ensures MaskBitString(n)[8 * i..8 * i + 8] == Repeat('1', ChunkOnes(n, i)) + Repeat('0', 8 - ChunkOnes(n, i))
  {
    var bits := MaskBitString(n);
    var k := ChunkOnes(n, i);
    var chunk := Repeat('1', k) + Repeat('0', 8 - k);
    forall j | 0 <= j < 8
      ensures bits[8 * i + j] == chunk[j]
    {
      assert bits[8 * i + j] == if 8 * i + j < n then '1' else '0';
    }
  }

  /** k ones followed by 8 - k zeros, in base 2, is the octet with its top k bits set. */
  lemma OnesThenZeros(k: nat)
    requires k <= 8
    ensures ParseBin(Repeat('1', k) + Repeat('0', 8 - k)) == PrefixOctet(k) as nat
  {
    ParseBinAppend(Repeat('1', k), Repeat('0', 8 - k));
    ParseBinOnes(k);
    ParseBinZeros(8 - k);
    PrefixOctetValue(k);
  }

  lemma PrefixOctetValue(k: nat)
    requires k <= 8
    ensures PrefixOctet(k) as nat == (Pow2(k) - 1) * Pow2(8 - k)
  {
    assert Pow2(1) == 2 && Pow2(2) == 4 && Pow2(3) == 8 && Pow2(4) == 16;
    assert Pow2(5) == 32 && Pow2(6) == 64 && Pow2(7) == 128 && Pow2(8) == 256;
  }

  /** Octet i of the /n netmask has ChunkOnes(n, i) leading one-bits. */
  lemma PrefixQuadOctet(n: nat, i: nat)
    requires n <= 32 && i < 4
    ensures PrefixQuad(n)[i] == PrefixOctet(ChunkOnes(n, i))
  {
    if n == 32 {
      assert ChunkOnes(n, i) == 8;
    } else {
      var at, k := n / 8, n % 8;
      assert n == 8 * at + k;
      if i < at {
        assert ChunkOnes(n, i) == 8;
      } else if i == at {
        assert ChunkOnes(n, i) == k;
      } else {
        assert ChunkOnes(n, i) == 0;
      }
    }
  }

  // ---------------------------------------------------------------- normalize_mask

  /** str.isdigit(): at least one character, all of them digits. */
  predicate IsDigitText(s: string)
  {
    |s| >= 1 && AllDigits(s)
  }

  /** normalize_mask: the stripped text as a prefix length when it starts with '/' or is
      all digits, otherwise unchanged when IPv4Address accepts it. */
  function NormalizeMask(mask: string): (r: Result<string, MaskError>)
  {
    var m := Strip(mask);
    if StartsWith(m, "/") || IsDigitText(m) then CidrNetmask(m)
    else if ParseAddress(m).Some? then Ok(m)
    else Err(InvalidMask(m))
  }

  // ---------------------------------------------------------------- properties

  /** The mask for /n reads back as an address whose 32-bit value is contiguous with
      exactly n one-bits, that is the top n bits set. */
  lemma CidrNetmaskIsPrefix(n: nat)
    requires n <= 32
    ensures ParseAddress(Dotted(PrefixQuad(n))) == Some(PrefixQuad(n))
    ensures IsNetmask(FromQuad(PrefixQuad(n))) && MaskBits(PrefixQuad(n)) == n
  {
    ParseAddressOfDotted(PrefixQuad(n));
    PrefixQuadIsNetmask(n);
  }

  /** Distinct prefix lengths give distinct masks. */
  lemma CidrNetmaskInjective(n1: nat, n2: nat)
    requires n1 <= 32 && n2 <= 32 && Dotted(PrefixQuad(n1)) == Dotted(PrefixQuad(n2))
    ensures n1 == n2
  {
    CidrNetmaskIsPrefix(n1);
    CidrNetmaskIsPrefix(n2);
  }

  /** cidr_to_netmask succeeds exactly on the texts int() reads as 0..32, after an optional '/'. */
  lemma CidrAccepts(cidr: string)
    ensures CidrNetmask(cidr).Ok? <==> exists v :: ParseInt(CidrDigits(cidr)) == Some(v) && 0 <= v <= 32
    ensures CidrNetmask(cidr).Err? ==> CidrNetmask(cidr).error == InvalidCidr(CidrDigits(cidr))
  {
    if exists v :: ParseInt(CidrDigits(cidr)) == Some(v) && 0 <= v <= 32 {
      var v :| ParseInt(CidrDigits(cidr)) == Some(v) && 0 <= v <= 32;
      assert CidrValue(cidr) == Some(v as nat);
    }
  }

  /** Digits n and "/" followed by them both give the /n mask. */
  lemma CidrForms(n: nat)
    requires n <= 32
    ensures CidrNetmask(Dec(n)) == Ok(Dotted(PrefixQuad(n)))
    ensures CidrNetmask("/" + Dec(n)) == Ok(Dotted(PrefixQuad(n)))
  {
    CidrDigitsOfDec(n);
    CidrValueOfDigits(Dec(n), n);
    CidrValueOfDigits("/" + Dec(n), n);
  }

  lemma CidrDigitsOfDec(n: nat)
    ensures CidrDigits(Dec(n)) == Dec(n) && CidrDigits("/" + Dec(n)) == Dec(n)
  {
    assert !StartsWith(Dec(n), "/") by { assert IsDigit(Dec(n)[0]); }
    assert ("/" + Dec(n))[..1] == "/";
    assert ("/" + Dec(n))[1..] == Dec(n);
  }

  lemma CidrValueOfDigits(cidr: string, n: nat)
    requires n <= 32 && CidrDigits(cidr) == Dec(n)
    ensures CidrValue(cidr) == Some(n)
  {
    ParseIntOfDigits(Dec(n));
    DecRoundTrip(n);
  }

  /** normalize_mask on "/24" gives 255.255.255.0. */
  lemma NormalizeSlashed(slashed: string)
    requires slashed == "/24"
    ensures NormalizeMask(slashed) == Ok("255.255.255.0")
  {
    assert slashed[0] == '/' && slashed[2] == '4';
    NoSpaceAtEnds(slashed);
    assert StartsWith(slashed, "/") by { assert slashed[..1] == "/"; }
    assert CidrDigits(slashed) == Dec(24) by { assert Dec(24) == "24"; }
    NormalizeCidr(slashed, 24);
    Mask24Text();
  }

  /** normalize_mask on "24" gives 255.255.255.0 as well. */
  lemma NormalizeBare(bare: string)
    requires bare == "24"
    ensures NormalizeMask(bare) == Ok("255.255.255.0")
  {
    assert bare[0] == '2' && bare[1] == '4';
    NoSpaceAtEnds(bare);
    assert IsDigitText(bare);
    assert CidrDigits(bare) == Dec(24) by {
      assert !StartsWith(bare, "/") by { assert bare[..1] != "/"; }
      assert Dec(24) == "24";
    }
    NormalizeCidr(bare, 24);
    Mask24Text();
  }

  /** A stripped text sent to cidr_to_netmask whose digits are those of n gives the /n mask. */
  lemma NormalizeCidr(m: string, n: nat)
    requires n <= 32 && Strip(m) == m && (StartsWith(m, "/") || IsDigitText(m)) && CidrDigits(m) == Dec(n)
    ensures NormalizeMask(m) == Ok(Dotted(PrefixQuad(n)))
  {
    CidrValueOfDigits(m, n);
  }

  lemma Mask24Text()
    ensures Dotted(PrefixQuad(24)) == "255.255.255.0"
  {
    var q: Quad := [255, 255, 255, 0];
    assert PrefixQuad(24) == q;
    DottedFields(q);
    assert Dec(255) == "255" by { assert Dec(25) == "25"; }
    assert Dec(0) == "0";
    var s := "255" + ['.'] + ("255" + ['.'] + ("255" + ['.'] + "0"));
    assert s == "255.255.255.0";
  }

  /** A text that neither starts nor ends with whitespace is its own strip. */
  lemma NoSpaceAtEnds(s: string)
    requires |s| >= 1 && !IsSpace(s[0]) && !IsSpace(s[|s| - 1])
    ensures Strip(s) == s
  {
    assert TrimStart(s) == s;
  }

  /** A prefix length above 32 is refused, quoting the digits: "/33" gives that error. */
  lemma NormalizeRejectsLong(tooLong: string)
    requires tooLong == "/33"
    ensures NormalizeMask(tooLong) == Err(InvalidCidr("33"))
  {
    assert tooLong[0] == '/' && tooLong[2] == '3';
    NoSpaceAtEnds(tooLong);
    assert StartsWith(tooLong, "/") by { assert tooLong[..1] == "/"; }
    CidrOutOfRange(tooLong, "33");
  }

  /** The digits after the '/' read as a number above 32: cidr_to_netmask refuses them. */
  lemma CidrOutOfRange(cidr: string, digits: string)
    requires digits == "33" && CidrDigits(cidr) == digits
    ensures CidrNetmask(cidr) == Err(InvalidCidr(digits))
  {
    assert AllDigits(digits);
    ParseIntOfDigits(digits);
    assert ParseDec(digits) == 33 by {
      assert digits[..1] == "3" && digits[..1][..0] == [];
      assert ParseDec(digits[..1]) == 3;
    }
  }

  /** A text that is neither a prefix length nor an address is refused as it is: "-1". */
  lemma NormalizeRejectsNegative(negative: string)
    requires negative == "-1"
    ensures NormalizeMask(negative) == Err(InvalidMask(negative))
  {
    assert negative[0] == '-' && negative[1] == '1';
    NoSpaceAtEnds(negative);
    assert !StartsWith(negative, "/") by { assert negative[..1] != "/"; }
    assert !IsDigitText(negative) by { assert !IsDigit(negative[0]); }
    NoDotNoAddress(negative);
  }

  /** A text without a '.' splits into one part, too few for an address. */
  lemma NoDotNoAddress(s: string)
    requires forall i :: 0 <= i < |s| ==> s[i] != '.'
    ensures ParseAddress(s).None?
  {
    SplitWithoutSep(s, '.');
  }

  /** Whatever normalize_mask returns is a text IPv4Address accepts. */
  lemma NormalizedIsAddress(mask: string)
    requires NormalizeMask(mask).Ok?
    ensures ParseAddress(NormalizeMask(mask).value).Some?
  {
    var m := Strip(mask);
    if StartsWith(m, "/") || IsDigitText(m) {
      CidrNetmaskIsPrefix(CidrValue(m).value);
    }
  }

  /** A stripped address text is returned unchanged, contiguous or not. */
  lemma AddressPassesThrough(mask: string)
    requires ParseAddress(Strip(mask)).Some?
    ensures NormalizeMask(mask) == Ok(Strip(mask))
  {
    var m := Strip(mask);
    DottedOfParseAddress(m);
    DottedShape(ParseAddress(m).value);
    assert !StartsWith(m, "/") by { assert m[..1] != "/"; }
  }

  /** The text of an address starts with a digit and holds a '.', so it is neither a
      '/'-prefixed nor an all-digit prefix length. */
  lemma DottedShape(q: Quad)
    ensures var s := Dotted(q); |s| >= 1 && IsDigit(s[0]) && !IsDigitText(s)
  {
    DottedFields(q);
    var first := Dec(q[0] as nat);
    var rest := Dec(q[1] as nat) + ['.'] + (Dec(q[2] as nat) + ['.'] + Dec(q[3] as nat));
    var s := Dotted(q);
    assert s == first + ['.'] + rest;
    assert s[0] == first[0];
    assert s[|first|] == '.';
  }
}
