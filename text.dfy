/** The Python string operations the calculator relies on, written out:
    str(n) for a non-negative int, int(s) and int(s, 2), format(n, '08b'),
    str.split and str.join, str.strip, str.startswith and str.ljust.
    Each renderer comes with the parser that inverts it. */
module Text {
  import opened Wrappers

  // ---------------------------------------------------------------- digits

  predicate IsDigit(c: char) { '0' <= c <= '9' }

  predicate AllDigits(s: string) { forall i :: 0 <= i < |s| ==> IsDigit(s[i]) }

  function DigitChar(d: nat): (c: char)
    requires d < 10
    ensures IsDigit(c) && DigitValue(c) == d
  {
    (48 + d) as char
  }

  function DigitValue(c: char): nat
    requires IsDigit(c)
  {
    c as int - 48
  }

  lemma DigitCharOfValue(c: char)
    requires IsDigit(c)
    ensures DigitChar(DigitValue(c)) == c
  {
  }

  // ---------------------------------------------------------------- decimal

  /** str(n) for a non-negative Python int: decimal digits, no leading zero. */
  function Dec(n: nat): (s: string)
    ensures |s| >= 1 && AllDigits(s)
    ensures s[0] == '0' ==> n == 0
    decreases n
  {
    if n < 10 then [DigitChar(n)] else Dec(n / 10) + [DigitChar(n % 10)]
  }

  /** The value of a string of decimal digits, as int(s) reads it. */
  function ParseDec(s: string): nat
    requires AllDigits(s)
  {
    if s == [] then 0 else ParseDec(s[..|s| - 1]) * 10 + DigitValue(s[|s| - 1])
  }

  /** A string of digits that str() could have produced: no leading zero unless it is "0". */
  predicate IsCanonicalDec(s: string)
  {
    |s| >= 1 && AllDigits(s) && (s[0] == '0' ==> |s| == 1)
  }

  lemma {:induction false} DecRoundTrip(n: nat)
    ensures ParseDec(Dec(n)) == n
    decreases n
  {
    if n >= 10 {
      var s := Dec(n);
      assert s[..|s| - 1] == Dec(n / 10);
      DecRoundTrip(n / 10);
    }
  }

  lemma DecIsCanonical(n: nat)
    ensures IsCanonicalDec(Dec(n))
  {
  }

  lemma {:induction false} ParseDecPositive(s: string)
    requires AllDigits(s) && |s| >= 1 && s[0] != '0'
    ensures ParseDec(s) >= 1
    decreases |s|
  {
    if |s| > 1 {
      ParseDecPositive(s[..|s| - 1]);
    }
  }

  /** A canonical digit string is exactly what str() prints for its value. */
  lemma {:induction false} DecOfParseDec(s: string)
    requires IsCanonicalDec(s)
    ensures Dec(ParseDec(s)) == s
    decreases |s|
  {
    var last := s[|s| - 1];
    if |s| == 1 {
      assert s == [last];
      DigitCharOfValue(last);
    } else {
      var init := s[..|s| - 1];
      ParseDecPositive(init);
      DecOfParseDec(init);
      DigitCharOfValue(last);
      assert s == init + [last];
    }
  }

  /** Every value below 1000 prints in at most three digits. */
  lemma DecShort(n: nat)
    requires n < 1000
    ensures |Dec(n)| <= 3
  {
    if n >= 10 {
      assert |Dec(n)| == |Dec(n / 10)| + 1;
      if n / 10 >= 10 {
        assert |Dec(n / 10)| == |Dec(n / 100)| + 1;
      }
    }
  }

  // ---------------------------------------------------------------- binary

  function Pow2(n: nat): (r: nat)
    ensures r >= 1
  {
    if n == 0 then 1 else 2 * Pow2(n - 1)
  }

  predicate IsBinaryDigits(s: string) { forall i :: 0 <= i < |s| ==> s[i] == '0' || s[i] == '1' }

  /** format(n, '0<width>b'): the low `width` bits of n, most significant first. */
  function BinDigits(n: nat, width: nat): (s: string)
    ensures |s| == width && IsBinaryDigits(s)
  {
    if width == 0 then [] else BinDigits(n / 2, width - 1) + [if n % 2 == 0 then '0' else '1']
  }

  /** int(s, 2) on a string of binary digits. */
  function ParseBin(s: string): nat
  {
    if s == [] then 0 else 2 * ParseBin(s[..|s| - 1]) + (if s[|s| - 1] == '1' then 1 else 0)
  }

  lemma {:induction false} BinRoundTrip(n: nat, width: nat)
    requires n < Pow2(width)
    ensures ParseBin(BinDigits(n, width)) == n
  {
    if width > 0 {
      var s := BinDigits(n, width);
      assert s[..|s| - 1] == BinDigits(n / 2, width - 1);
      BinRoundTrip(n / 2, width - 1);
    }
  }

  lemma {:induction false} ParseBinAppend(s: string, t: string)
    ensures ParseBin(s + t) == ParseBin(s) * Pow2(|t|) + ParseBin(t)
    decreases |t|
  {
    if t != [] {
      var t' := t[..|t| - 1];
      var b := if t[|t| - 1] == '1' then 1 else 0;
      ConcatInit(s, t);
      ParseBinAppend(s, t');
      var p, x, q := ParseBin(s), Pow2(|t'|), ParseBin(t');
      assert ParseBin(s + t) == 2 * ParseBin(s + t') + b;
      assert ParseBin(t) == 2 * q + b;
      assert Pow2(|t|) == 2 * x;
      assert p * (2 * x) == 2 * (p * x) by { MulDouble(p, x); }
    } else {
      assert s + t == s;
    }
  }

  lemma MulDouble(p: nat, x: nat)
    ensures p * (2 * x) == 2 * (p * x)
  {
  }

  // ---------------------------------------------------------------- repetition and padding

  /** c * n in Python. */
  function Repeat(c: char, n: nat): (s: string)
    ensures |s| == n && forall i :: 0 <= i < n ==> s[i] == c
  {
    seq(n, _ => c)
  }

  lemma {:induction false} ParseBinZeros(n: nat)
    ensures ParseBin(Repeat('0', n)) == 0
  {
    if n > 0 {
      assert Repeat('0', n)[..n - 1] == Repeat('0', n - 1);
      ParseBinZeros(n - 1);
    }
  }

  lemma {:induction false} ParseBinOnes(n: nat)
    ensures ParseBin(Repeat('1', n)) + 1 == Pow2(n)
  {
    if n > 0 {
      assert Repeat('1', n)[..n - 1] == Repeat('1', n - 1);
      ParseBinOnes(n - 1);
    }
  }

  /** s.ljust(width): s followed by enough spaces to reach `width`; never shortened. */
  function LJust(s: string, width: nat): (r: string)
    ensures |r| == if |s| >= width then |s| else width
    ensures r[..|s|] == s && forall i :: |s| <= i < |r| ==> r[i] == ' '
  {
    if |s| >= width then s else s + Repeat(' ', width - |s|)
  }

  predicate StartsWith(s: string, prefix: string)
  {
    |prefix| <= |s| && s[..|prefix|] == prefix
  }

  /** A non-empty field followed by more text starts with whatever the whole text starts with. */
  lemma LeadingChar(a: string, rest: string, c: char)
    requires |a| >= 1 && StartsWith(a + rest, [c])
    ensures a[0] == c
  {
    assert (a + rest)[0] == a[0];
  }

  /** When a digit field ended by a separator starts like another such field, the
      two fields are equal and what follows the first starts like what follows the second. */
  lemma FieldPrefix(a: string, rest: string, p: string, tail: string, sep: char)
    requires AllDigits(a) && AllDigits(p) && !IsDigit(sep)
    requires StartsWith(a + [sep] + rest, p + [sep] + tail)
    ensures a == p && StartsWith(rest, tail)
  {
    var s, t := a + [sep] + rest, p + [sep] + tail;
    assert s[..|t|] == t;
    assert s[|a|] == sep && t[|p|] == sep;
    assert |a| == |p|;
    assert a == s[..|a|] && p == t[..|p|];
    assert rest[..|tail|] == s[|a| + 1..|t|] && tail == t[|p| + 1..];
  }

  // ---------------------------------------------------------------- split and join

  /** sep.join(parts). */
  function Join(parts: seq<string>, sep: string): string
  {
    if |parts| == 0 then []
    else if |parts| == 1 then parts[0]
    else Join(parts[..|parts| - 1], sep) + sep + parts[|parts| - 1]
  }

  /** s.split(sep) for a one-character separator: "" splits into [""]. */
  function Split(s: string, sep: char): (parts: seq<string>)
    ensures |parts| >= 1
  {
    if s == [] then [[]]
    else
      var ps := Split(s[..|s| - 1], sep);
      if s[|s| - 1] == sep then ps + [[]]
      else ps[..|ps| - 1] + [ps[|ps| - 1] + [s[|s| - 1]]]
  }

  /** A join of four parts, written out. */
  lemma Join4(a: string, b: string, c: string, d: string, sep: string)
    ensures Join([a, b, c, d], sep) == a + sep + (b + sep + (c + sep + d))
  {
    assert [a, b, c, d][..3] == [a, b, c] && [a, b, c][..2] == [a, b] && [a, b][..1] == [a];
    assert Join([a, b], sep) == a + sep + b;
    assert Join([a, b, c], sep) == Join([a, b], sep) + sep + c;
    assert Join([a, b, c, d], sep) == Join([a, b, c], sep) + sep + d;
  }

  lemma {:induction false} JoinOfSplit(s: string, sep: char)
    ensures Join(Split(s, sep), [sep]) == s
    decreases |s|
  {
    if s != [] {
      var init, x := s[..|s| - 1], s[|s| - 1];
      var ps := Split(init, sep);
      JoinOfSplit(init, sep);
      if x == sep {
        assert (ps + [[]])[..|ps|] == ps;
      } else if |ps| > 1 {
        var ps' := ps[..|ps| - 1] + [ps[|ps| - 1] + [x]];
        assert ps'[..|ps'| - 1] == ps[..|ps| - 1];
      }
      assert s == init + [x];
    }
  }

  lemma {:induction false} SplitWithoutSep(p: string, sep: char)
    requires sep !in p
    ensures Split(p, sep) == [p]
    decreases |p|
  {
    if p != [] {
      SplitWithoutSep(p[..|p| - 1], sep);
      assert p == p[..|p| - 1] + [p[|p| - 1]];
    }
  }

  /** Split unfolded once at a final separator: a new, empty part. */
  lemma SplitSnocSep(s: string, sep: char)
    ensures Split(s + [sep], sep) == Split(s, sep) + [[]]
  {
    assert (s + [sep])[..|s|] == s;
  }

  /** Split unfolded once at a final ordinary character: the last part grows. */
  lemma SplitSnocOther(s: string, x: char, sep: char)
    requires x != sep
    ensures Split(s + [x], sep) == Split(s, sep)[..|Split(s, sep)| - 1] + [Split(s, sep)[|Split(s, sep)| - 1] + [x]]
  {
    assert (s + [x])[..|s|] == s;
  }

  lemma {:induction false} SplitAtSep(s: string, t: string, sep: char)
    ensures Split(s + [sep] + t, sep) == Split(s, sep) + Split(t, sep)
    decreases |t|
  {
    if t == [] {
      SplitSnocSep(s, sep);
      assert s + [sep] + t == s + [sep];
    } else {
      var t', x := t[..|t| - 1], t[|t| - 1];
      SplitAtSep(s, t', sep);
      SplitAtSepStep(s + [sep] + t', Split(s, sep), t', x, sep);
      SnocInit(t);
      Assoc(s + [sep], t', [x]);
    }
  }

  /** One more character after a split point changes only what follows it. */
  lemma SplitAtSepStep(u: string, a: seq<string>, t': string, x: char, sep: char)
    requires Split(u, sep) == a + Split(t', sep)
    ensures Split(u + [x], sep) == a + Split(t' + [x], sep)
  {
    if x == sep {
      StepAtSep(u, a, t', sep);
    } else {
      StepAtOther(u, a, t', x, sep);
    }
  }

  lemma StepAtSep(u: string, a: seq<string>, t': string, sep: char)
    requires Split(u, sep) == a + Split(t', sep)
    ensures Split(u + [sep], sep) == a + Split(t' + [sep], sep)
  {
    SplitSnocSep(u, sep);
    SplitSnocSep(t', sep);
    Assoc(a, Split(t', sep), [[]]);
  }

  lemma StepAtOther(u: string, a: seq<string>, t': string, x: char, sep: char)
    requires x != sep
    requires Split(u, sep) == a + Split(t', sep)
    ensures Split(u + [x], sep) == a + Split(t' + [x], sep)
  {
    var b := Split(t', sep);
    var c := b[..|b| - 1] + [b[|b| - 1] + [x]];
    SplitSnocOther(u, x, sep);
    SplitSnocOther(t', x, sep);
    ConcatInit(a, b);
    Assoc(a, b[..|b| - 1], [b[|b| - 1] + [x]]);
    assert Split(t' + [x], sep) == c;
    assert Split(u + [x], sep) == a + c;
  }

  lemma Assoc<T>(a: seq<T>, b: seq<T>, c: seq<T>)
    ensures (a + b) + c == a + (b + c)
  {
  }

  lemma ConcatInit<T>(a: seq<T>, b: seq<T>)
    requires |b| > 0
    ensures (a + b)[..|a + b| - 1] == a + b[..|b| - 1] && (a + b)[|a + b| - 1] == b[|b| - 1]
  {
  }

  lemma SnocInit<T>(a: seq<T>)
    requires |a| > 0
    ensures a == a[..|a| - 1] + [a[|a| - 1]]
  {
  }

  /** Splitting a join of separator-free parts gives the parts back. */
  lemma {:induction false} SplitOfJoin(parts: seq<string>, sep: char)
    requires |parts| >= 1
    requires forall i :: 0 <= i < |parts| ==> sep !in parts[i]
    ensures Split(Join(parts, [sep]), sep) == parts
    decreases |parts|
  {
    var last := parts[|parts| - 1];
    SplitWithoutSep(last, sep);
    if |parts| > 1 {
      var init := parts[..|parts| - 1];
      SplitOfJoin(init, sep);
      SplitAtSep(Join(init, [sep]), last, sep);
      SnocInit(parts);
    }
  }

  lemma {:induction false} JoinLength(parts: seq<string>, sep: string, widths: seq<nat>)
    requires |parts| == |widths| && forall i :: 0 <= i < |parts| ==> |parts[i]| == widths[i]
    ensures |Join(parts, sep)| == Sum(widths) + (if |parts| == 0 then 0 else |sep| * (|parts| - 1))
    decreases |parts|
  {
    var n := |parts|;
    if n > 1 {
      var init, w := widths[..n - 1], widths[n - 1];
      JoinLength(parts[..n - 1], sep, init);
      assert |Join(parts, sep)| == |Join(parts[..n - 1], sep)| + |sep| + w;
      SumSnoc(init, w);
      assert init + [w] == widths;
    } else if n == 1 {
      assert widths == [widths[0]];
      assert Sum(widths) == widths[0] + Sum([]);
    }
  }

  function Sum(xs: seq<nat>): nat
  {
    if xs == [] then 0 else xs[0] + Sum(xs[1..])
  }

  lemma {:induction false} SumSnoc(xs: seq<nat>, x: nat)
    ensures Sum(xs + [x]) == Sum(xs) + x
    decreases |xs|
  {
    if xs != [] {
      assert (xs + [x])[1..] == xs[1..] + [x];
      SumSnoc(xs[1..], x);
    }
  }

  // ---------------------------------------------------------------- whitespace and int()

  /** str.isspace() for one character. */
  predicate IsSpace(c: char)
  {
    var k := c as int;
    9 <= k <= 13 || 28 <= k <= 32 || k == 0x85 || k == 0xA0 || k == 0x1680
    || 0x2000 <= k <= 0x200A || k == 0x2028 || k == 0x2029 || k == 0x202F
    || k == 0x205F || k == 0x3000
  }

  function TrimStart(s: string): (r: string)
    ensures |r| <= |s| && (r == [] || !IsSpace(r[0]))
    ensures r == s[|s| - |r|..] && forall i :: 0 <= i < |s| - |r| ==> IsSpace(s[i])
  {
    if s != [] && IsSpace(s[0]) then TrimStart(s[1..]) else s
  }

  function TrimEnd(s: string): (r: string)
    ensures r == [] || !IsSpace(r[|r| - 1])
    ensures |r| <= |s| && r == s[..|r|] && forall i :: |r| <= i < |s| ==> IsSpace(s[i])
  {
    if s != [] && IsSpace(s[|s| - 1]) then TrimEnd(s[..|s| - 1]) else s
  }

  /** s.strip(): the whitespace at both ends removed, nothing else touched. */
  function Strip(s: string): (r: string)
    ensures r == [] || (!IsSpace(r[0]) && !IsSpace(r[|r| - 1]))
  {
    TrimEnd(TrimStart(s))
  }

  /** The digits of a base-10 int() literal: digits with single underscores between them. */
  predicate IsDigitGroups(s: string)
  {
    && |s| >= 1
    && (forall i :: 0 <= i < |s| ==> IsDigit(s[i]) || s[i] == '_')
    && (forall i :: 0 <= i < |s| && s[i] == '_' ==> 0 < i < |s| - 1 && IsDigit(s[i + 1]))
  }

  function DropUnderscores(s: string): (r: string)
    requires forall i :: 0 <= i < |s| ==> IsDigit(s[i]) || s[i] == '_'
    ensures AllDigits(r)
  {
    if s == [] then []
    else if s[0] == '_' then DropUnderscores(s[1..])
    else [s[0]] + DropUnderscores(s[1..])
  }

  /** int(s) for a str argument: surrounding whitespace, an optional sign, then a
      digit group; anything else raises ValueError (None here). */
  function ParseInt(s: string): Option<int>
  {
    var t := Strip(s);
    if |t| >= 1 && (t[0] == '+' || t[0] == '-') then
      if IsDigitGroups(t[1..]) then
        var v: int := ParseDec(DropUnderscores(t[1..]));
        Some(if t[0] == '-' then -v else v)
      else None
    else if IsDigitGroups(t) then Some(ParseDec(DropUnderscores(t)))
    else None
  }

  lemma {:induction false} DropUnderscoresOfDigits(s: string)
    requires AllDigits(s)
    ensures DropUnderscores(s) == s
  {
    if s != [] {
      DropUnderscoresOfDigits(s[1..]);
    }
  }

  /** A plain run of ASCII digits is read by int() as its decimal value. */
  lemma ParseIntOfDigits(s: string)
    requires |s| >= 1 && AllDigits(s)
    ensures ParseInt(s) == Some(ParseDec(s))
  {
    assert !IsSpace(s[0]) && !IsSpace(s[|s| - 1]);
    assert TrimStart(s) == s;
    assert TrimEnd(s) == s;
    assert Strip(s) == s;
    assert !(s[0] == '+' || s[0] == '-');
    assert IsDigitGroups(s);
    DropUnderscoresOfDigits(s);
  }
}
