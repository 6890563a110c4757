/**
 * The notation of addresses and CIDRs: exactly which texts are read and as what, and that an address
 * or a block is printed as the one plain text for it.
 */
module Notation {
  import opened Results
  import opened Powers
  import opened Blocks
  import opened Text
  import opened CidrText

  // ---------------------------------------------------------------- numerals

  /** Decimal digits without a superfluous leading zero. */
  predicate Plain(s: string) {
    && s != []
    && (forall i :: 0 <= i < |s| ==> '0' <= s[i] <= '9')
    && (s[0] == '0' ==> |s| == 1)
  }

  lemma {:induction false} DecimalPlain(n: nat)
    ensures Plain(Decimal(n)) && (n > 0 ==> Decimal(n)[0] != '0')
  {
    if n >= 10 { DecimalPlain(n / 10); }
  }

  lemma {:induction false} PlainPositive(s: string)
    requires s != [] && AllDigits(s) && s[0] != '0'
    ensures DecimalValue(s) >= 1
  {
    if |s| > 1 { PlainPositive(s[..|s| - 1]); }
  }

  /** The plain numeral of a number is the only one. */
  lemma {:induction false} DecimalUnique(s: string)
    requires Plain(s)
    ensures Decimal(DecimalValue(s)) == s
  {
    if |s| > 1 {
      var q, d := s[..|s| - 1], s[|s| - 1] as int - '0' as int;
      PlainPositive(q);
      DecimalUnique(q);
      assert DecimalValue(s) == 10 * DecimalValue(q) + d && DecimalValue(s) >= 10;
      assert s == q + [s[|s| - 1]];
    }
  }

  /** Leading zeros do not change the number. */
  lemma {:induction false} LeadingZero(s: string)
    requires AllDigits(s)
    ensures AllDigits("0" + s) && DecimalValue("0" + s) == DecimalValue(s)
  {
    if s != [] {
      LeadingZero(s[..|s| - 1]);
      assert ("0" + s)[..|s|] == "0" + s[..|s| - 1];
    }
  }

  // ---------------------------------------------------------------- addresses

  function Dotted(a: string, b: string, c: string, d: string): (t: string) {
    a + "." + b + "." + c + "." + d
  }

  ghost predicate PlainQuad(t: string) {
    exists a, b, c, d :: t == Dotted(a, b, c, d) && Plain(a) && Plain(b) && Plain(c) && Plain(d)
  }

  /** One to three digits for at most 255; leading zeros are read. */
  predicate OctetText(s: string) {
    1 <= |s| <= 3 && AllDigits(s) && DecimalValue(s) <= 255
  }

  ghost predicate Denotes(t: string, v: int) {
    exists a, b, c, d ::
      && t == Dotted(a, b, c, d)
      && OctetText(a) && OctetText(b) && OctetText(c) && OctetText(d)
      && v == ((DecimalValue(a) * 256 + DecimalValue(b)) * 256 + DecimalValue(c)) * 256 + DecimalValue(d)
  }

  lemma JoinDotted(a: string, b: string, c: string, d: string)
    ensures Join([a, b, c, d], '.') == Dotted(a, b, c, d)
  {
    JoinQuad(a, b, c, d);
    assert a + "." + (b + "." + (c + "." + d)) == a + "." + b + "." + c + "." + d;
  }

  lemma JoinFirst(first: string, rest: seq<string>, sep: char)
    requires |rest| >= 1
    ensures Join([first] + rest, sep) == first + [sep] + Join(rest, sep)
  {
    assert ([first] + rest)[1..] == rest;
  }

  lemma {:induction false} JoinSplit(s: string, sep: char)
    ensures Join(Split(s, sep), sep) == s
  {
    hide Join;
    var i := IndexOf(s, sep);
    if i >= 0 {
      JoinSplit(s[i + 1..], sep);
      JoinFirst(s[..i], Split(s[i + 1..], sep), sep);
    } else {
      JoinOne(s, sep);
    }
  }

  lemma JoinOne(s: string, sep: char)
    ensures Join([s], sep) == s
  {
  }

  lemma DottedValue(a: string, b: string, c: string, d: string)
    requires AllDigits(a) && AllDigits(b) && AllDigits(c) && AllDigits(d)
    ensures IpValue(Dotted(a, b, c, d)) ==
            if OctetText(a) && OctetText(b) && OctetText(c) && OctetText(d)
            then Some(((DecimalValue(a) * 256 + DecimalValue(b)) * 256 + DecimalValue(c)) * 256 + DecimalValue(d))
            else None
  {
    hide DecimalValue, Split, Join;
    JoinDotted(a, b, c, d);
    SplitJoin([a, b, c, d], '.');
  }

  /** A text is read as an address exactly when it is four dotted octets, and as their value. */
  lemma IpValueIff(t: string, v: int)
    ensures IpValue(t) == Some(v) <==> Denotes(t, v)
  {
    hide DecimalValue, IpValue, Dotted;
    if IpValue(t) == Some(v) {
      FourParts(t);
      var parts := Split(t, '.');
      DottedValue(parts[0], parts[1], parts[2], parts[3]);
    }
    if Denotes(t, v) {
      var a, b, c, d :|
        && t == Dotted(a, b, c, d)
        && OctetText(a) && OctetText(b) && OctetText(c) && OctetText(d)
        && v == ((DecimalValue(a) * 256 + DecimalValue(b)) * 256 + DecimalValue(c)) * 256 + DecimalValue(d);
      DottedValue(a, b, c, d);
    }
  }

  lemma FourParts(t: string)
    requires IpValue(t).Some?
    ensures var parts := Split(t, '.');
            && |parts| == 4
            && t == Dotted(parts[0], parts[1], parts[2], parts[3])
            && OctetText(parts[0]) && OctetText(parts[1]) && OctetText(parts[2]) && OctetText(parts[3])
  {
    hide DecimalValue, Split, Join, Dotted;
    var parts := Split(t, '.');
    JoinSplit(t, '.');
    JoinDotted(parts[0], parts[1], parts[2], parts[3]);
    assert parts == [parts[0], parts[1], parts[2], parts[3]];
  }

  lemma DivideQuad(a: nat, b: nat, c: nat, d: nat)
    requires a <= 255 && b <= 255 && c <= 255 && d <= 255
    ensures var v := ((a * 256 + b) * 256 + c) * 256 + d;
            v / 16777216 % 256 == a && v / 65536 % 256 == b && v / 256 % 256 == c && v % 256 == d
  {
  }

  lemma PrintedQuad(a: string, b: string, c: string, d: string, v: nat)
    requires Plain(a) && Plain(b) && Plain(c) && Plain(d) && IpValue(Dotted(a, b, c, d)) == Some(v)
    ensures IntToIp(v) == Dotted(a, b, c, d)
  {
    hide DecimalValue, Join, IpValue, Decimal;
    DottedValue(a, b, c, d);
    DivideQuad(DecimalValue(a), DecimalValue(b), DecimalValue(c), DecimalValue(d));
    DecimalUnique(a);
    DecimalUnique(b);
    DecimalUnique(c);
    DecimalUnique(d);
    JoinDotted(a, b, c, d);
  }

  /** An address is printed as the one plain quad that is read as it. */
  lemma PrintsPlainQuad(v: nat, t: string)
    requires v < SPACE
    ensures IntToIp(v) == t <==> PlainQuad(t) && IpValue(t) == Some(v)
  {
    hide IpValue, Dotted, Plain, Decimal, IntToIp;
    PrintedPlain(v);
    IpRoundTrip(v);
    if PlainQuad(t) && IpValue(t) == Some(v) {
      var a, b, c, d :| t == Dotted(a, b, c, d) && Plain(a) && Plain(b) && Plain(c) && Plain(d);
      PrintedQuad(a, b, c, d, v);
    }
  }

  lemma PrintedPlain(v: nat)
    ensures PlainQuad(IntToIp(v))
  {
    hide Join, Decimal, Plain, Dotted;
    var os := Octets(v);
    DecimalPlain(v / 16777216 % 256);
    DecimalPlain(v / 65536 % 256);
    DecimalPlain(v / 256 % 256);
    DecimalPlain(v % 256);
    JoinDotted(os[0], os[1], os[2], os[3]);
    assert os == [os[0], os[1], os[2], os[3]];
    assert IntToIp(v) == Dotted(os[0], os[1], os[2], os[3]);
  }

  // ---------------------------------------------------------------- CIDRs

  function Slashed(ip: string, prefix: string): (t: string) {
    ip + "/" + prefix
  }

  /** A plain quad that is a network address, a slash and a plain prefix length. */
  ghost predicate PlainCidr(t: string, base: int) {
    exists ip, prefix :: t == Slashed(ip, prefix) && PlainQuad(ip) && Plain(prefix) && IpValue(ip) == Some(base)
  }

  lemma DenotesChars(ip: string, v: int)
    requires IpValue(ip) == Some(v)
    ensures ip != [] && (forall i :: 0 <= i < |ip| ==> IsDigit(ip[i]) || ip[i] == '.')
    ensures IsDigit(ip[0]) && IsDigit(ip[|ip| - 1])
  {
    hide IpValue, DecimalValue, Dotted;
    IpValueIff(ip, v);
    var a, b, c, d :| ip == Dotted(a, b, c, d) && OctetText(a) && OctetText(b) && OctetText(c) && OctetText(d);
    DottedChars(a, b, c, d);
  }

  predicate QuadChars(t: string) {
    forall i :: 0 <= i < |t| ==> IsDigit(t[i]) || t[i] == '.'
  }

  lemma DottedChars(a: string, b: string, c: string, d: string)
    requires a != [] && d != [] && AllDigits(a) && AllDigits(b) && AllDigits(c) && AllDigits(d)
    ensures var t := Dotted(a, b, c, d); t != [] && QuadChars(t) && IsDigit(t[0]) && IsDigit(t[|t| - 1])
  {
    hide QuadChars;
    assert QuadChars(a) && QuadChars(b) && QuadChars(c) && QuadChars(d) && QuadChars(".") by { DigitsQuad(); }
    QuadCharsConcat(a, ".");
    QuadCharsConcat(a + ".", b);
    QuadCharsConcat(a + "." + b, ".");
    QuadCharsConcat(a + "." + b + ".", c);
    QuadCharsConcat(a + "." + b + "." + c, ".");
    QuadCharsConcat(a + "." + b + "." + c + ".", d);
    assert Dotted(a, b, c, d)[0] == a[0];
  }

  lemma DigitsQuad()
    ensures QuadChars(".") && forall s :: AllDigits(s) ==> QuadChars(s)
  {
  }

  lemma QuadCharsConcat(s: string, t: string)
    requires QuadChars(s) && QuadChars(t)
    ensures QuadChars(s + t)
  {
  }

  /** A block is printed as the one plain text, without host bits, that is read as it. */
  lemma PrintsPlainCidr(c: Cidr, t: string)
    ensures PrintCidr(c) == t <==> PlainCidr(t, c.base) && ParseCidr(t) == Some(c)
  {
    hide IpValue, Decimal, IntToIp, Plain, PlainQuad, ParseCidr;
    CidrRoundTrip(c);
    PrintsPlainQuad(c.base, IntToIp(c.base));
    DecimalPlain(c.prefix);
    assert PrintCidr(c) == Slashed(IntToIp(c.base), Decimal(c.prefix));
    if PlainCidr(t, c.base) && ParseCidr(t) == Some(c) {
      var ip, prefix :| t == Slashed(ip, prefix) && PlainQuad(ip) && Plain(prefix) && IpValue(ip) == Some(c.base);
      PrintsPlainQuad(c.base, ip);
      PrefixRead(ip, prefix, c);
      DecimalUnique(prefix);
    }
  }

  lemma PrefixRead(ip: string, prefix: string, c: Cidr)
    requires IpValue(ip).Some? && Plain(prefix) && ParseCidr(Slashed(ip, prefix)) == Some(c)
    ensures DecimalValue(prefix) == c.prefix
  {
    hide IpValue, DecimalValue, Trim, IndexOf;
    DenotesChars(ip, IpValue(ip).value);
    ParsePieces(ip, prefix);
  }

  /** A prefix length is one or two digits for at most 32; without a slash it is 32. */
  predicate PrefixText(suffix: string, n: nat) {
    || (suffix == "" && n == 32)
    || (2 <= |suffix| <= 3 && suffix[0] == '/' && AllDigits(suffix[1..]) && DecimalValue(suffix[1..]) == n <= 32)
  }

  /** White space, an address, a prefix length, white space; c is the block of that length with the address. */
  predicate Spells(t: string, lead: string, ip: string, suffix: string, trail: string, c: Cidr) {
    && t == lead + ip + suffix + trail
    && AllSpaces(lead) && AllSpaces(trail)
    && IpValue(ip).Some? && PrefixText(suffix, c.prefix)
    && c.Has(IpValue(ip).value)
  }

  /** A text is read as a block exactly when it spells it. */
  lemma ParseCidrIff(t: string, c: Cidr)
    ensures ParseCidr(t) == Some(c) <==> exists lead, ip, suffix, trail :: Spells(t, lead, ip, suffix, trail, c)
  {
    hide ParseCidr, Spells;
    if ParseCidr(t) == Some(c) {
      var lead, ip, suffix, trail := Spelling(t, c);
    }
    if exists lead, ip, suffix, trail :: Spells(t, lead, ip, suffix, trail, c) {
      var lead, ip, suffix, trail :| Spells(t, lead, ip, suffix, trail, c);
      SpelledParses(t, lead, ip, suffix, trail, c);
    }
  }

  lemma Spelling(t: string, c: Cidr) returns (lead: string, ip: string, suffix: string, trail: string)
    requires ParseCidr(t) == Some(c)
    ensures Spells(t, lead, ip, suffix, trail, c)
  {
    hide TrimStart, TrimEnd, IpValue, DecimalValue, Network;
    lead := TrimStartEnds(t);
    trail := TrimEndEnds(TrimStart(t));
    var trimmed := Trim(t);
    var slash := IndexOf(trimmed, '/');
    if slash == -1 {
      ip, suffix := trimmed, "";
      ThirtyTwo();
    } else {
      ip, suffix := trimmed[..slash], trimmed[slash..];
      assert suffix[1..] == trimmed[slash + 1..];
    }
    assert t == lead + ip + suffix + trail;
  }

  lemma ThirtyTwo()
    ensures AllDigits("32") && DecimalValue("32") == 32
  {
    assert "32"[..1] == "3";
    assert DecimalValue("3") == 3;
  }

  lemma SpelledParses(t: string, lead: string, ip: string, suffix: string, trail: string, c: Cidr)
    requires Spells(t, lead, ip, suffix, trail, c)
    ensures ParseCidr(t) == Some(c)
  {
    hide IpValue, DecimalValue, TrimStart, TrimEnd, IndexOf, ParseParts;
    var v := IpValue(ip).value;
    DenotesChars(ip, v);
    SuffixChars(suffix, c.prefix);
    var core := ip + suffix;
    assert core[0] == ip[0];
    assert core[|core| - 1] == if suffix == "" then ip[|ip| - 1] else suffix[|suffix| - 1];
    assert t == lead + (core + trail);
    TrimLead(lead, core + trail);
    TrimTrail(core, trail);
    PartsOfSpelling(ip, suffix, c);
  }

  lemma SuffixChars(suffix: string, n: nat)
    requires PrefixText(suffix, n)
    ensures suffix != "" ==> suffix[0] == '/' && IsDigit(suffix[|suffix| - 1])
  {
    if suffix != "" {
      assert suffix[|suffix| - 1] == suffix[1..][|suffix| - 2];
    }
  }

  lemma PartsOfSpelling(ip: string, suffix: string, c: Cidr)
    requires IpValue(ip).Some? && PrefixText(suffix, c.prefix) && c.Has(IpValue(ip).value)
    ensures var slash := IndexOf(ip + suffix, '/');
            (if slash == -1 then ParseParts(ip + suffix, "32")
             else ParseParts((ip + suffix)[..slash], (ip + suffix)[slash + 1..])) == Some(c)
  {
    hide IpValue, DecimalValue, IndexOf;
    var v := IpValue(ip).value;
    DenotesChars(ip, v);
    AlignedUnique(Network(v, c.prefix), c, v);
    if suffix == "" {
      ThirtyTwo();
      assert ip + suffix == ip;
      assert IndexOf(ip, '/') < 0;
    } else {
      assert ip + suffix == ip + ['/'] + suffix[1..];
      IndexOfPrefix(ip, '/', suffix[1..]);
      assert (ip + suffix)[..|ip|] == ip && (ip + suffix)[|ip| + 1..] == suffix[1..];
    }
  }
}
