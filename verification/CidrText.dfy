/**
 * The text half of apps/api/src/common/cidr.util.ts: parsing and printing addresses and CIDRs, and
 * the set of addresses that a list of CIDR strings covers.
 */
module CidrText {
  import opened Results
  import opened Powers
  import opened Blocks
  import opened Text

  // ---------------------------------------------------------------- addresses

  predicate IsOctet(part: string) {
    1 <= |part| <= 3 && AllDigits(part) && DecimalValue(part) <= 255
  }

  /** The number a strict dotted quad denotes. */
  function IpValue(ip: string): (r: Option<int>)
    ensures r.Some? ==> 0 <= r.value < SPACE
  {
    var parts := Split(ip, '.');
    if |parts| == 4 && IsOctet(parts[0]) && IsOctet(parts[1]) && IsOctet(parts[2]) && IsOctet(parts[3]) then
      Some(
        DecimalValue(parts[0]) * 16777216 + DecimalValue(parts[1]) * 65536
        + DecimalValue(parts[2]) * 256 + DecimalValue(parts[3]))
    else
      None
  }

  method IpToInt(ip: string) returns (r: Option<int>)
    ensures r == IpValue(ip)
  {
    var parts := Split(ip, '.');
    if |parts| != 4 {
      return None;
    }
    var value := 0;
    for i := 0 to |parts|
      invariant forall k :: 0 <= k < i ==> IsOctet(parts[k])
      invariant i == 0 ==> value == 0
      invariant i == 1 ==> value == DecimalValue(parts[0])
      invariant i == 2 ==> value == DecimalValue(parts[0]) * 256 + DecimalValue(parts[1])
      invariant i == 3 ==> value == DecimalValue(parts[0]) * 65536 + DecimalValue(parts[1]) * 256 + DecimalValue(parts[2])
      invariant i == 4 ==> Some(value) == IpValue(ip)
    {
      var part := parts[i];
      if !(1 <= |part| <= 3 && AllDigits(part)) {
        return None;
      }
      var octet := DecimalValue(part);
      if octet > 255 {
        return None;
      }
      value := value * 256 + octet;
    }
    return Some(value);
  }

  function Octets(value: nat): (parts: seq<string>)
    ensures |parts| == 4
  {
    [Decimal(value / 16777216 % 256), Decimal(value / 65536 % 256), Decimal(value / 256 % 256), Decimal(value % 256)]
  }

  function IntToIp(value: nat): (ip: string) {
    Join(Octets(value), '.')
  }

  lemma JoinQuad(a: string, b: string, c: string, d: string)
    ensures Join([a, b, c, d], '.') == a + "." + (b + "." + (c + "." + d))
  {
    assert [a, b, c, d][1..] == [b, c, d];
    assert [b, c, d][1..] == [c, d];
    assert [c, d][1..] == [d];
    assert Join([c, d], '.') == c + "." + d;
    assert Join([b, c, d], '.') == b + "." + (c + "." + d);
  }

  lemma OctetPrints(n: nat)
    requires n <= 255
    ensures IsOctet(Decimal(n)) && DecimalValue(Decimal(n)) == n && '.' !in Decimal(n)
  {
    DecimalRoundTrip(n);
  }

  lemma QuadValue(parts: seq<string>)
    requires |parts| == 4 && IsOctet(parts[0]) && IsOctet(parts[1]) && IsOctet(parts[2]) && IsOctet(parts[3])
    requires forall i :: 0 <= i < 4 ==> '.' !in parts[i]
    ensures IpValue(Join(parts, '.')) == Some(
              DecimalValue(parts[0]) * 16777216 + DecimalValue(parts[1]) * 65536
              + DecimalValue(parts[2]) * 256 + DecimalValue(parts[3]))
  {
    SplitJoin(parts, '.');
  }

  /** Printing an address and reading it back gives the address. */
  lemma IpRoundTrip(value: nat)
    requires value < SPACE
    ensures IpValue(IntToIp(value)) == Some(value)
  {
    hide IpValue, Join, Decimal, DecimalValue, AllDigits;
    OctetPrints(value / 16777216 % 256);
    OctetPrints(value / 65536 % 256);
    OctetPrints(value / 256 % 256);
    OctetPrints(value % 256);
    QuadValue(Octets(value));
    OctetsRebuild(value);
  }

  lemma OctetsRebuild(value: nat)
    requires value < SPACE
    ensures value / 16777216 % 256 * 16777216 + value / 65536 % 256 * 65536 + value / 256 % 256 * 256 + value % 256 == value
  {
  }

  // ---------------------------------------------------------------- CIDRs

  /** The block of an address with some of its host bits cleared. */
  function Network(ip: int, prefix: nat): (c: Cidr)
    requires 0 <= ip < SPACE && prefix <= 32
    ensures c.Has(ip) && c.prefix == prefix
  {
    var blockSize := Pow2(32 - prefix);
    NetworkValid(ip, prefix);
    ParsedCidr(ip - ip % blockSize, prefix)
  }

  function ParseParts(ipPart: string, prefixPart: string): (r: Option<Cidr>) {
    var ip := IpValue(ipPart);
    if ip.None? then None
    else if !(1 <= |prefixPart| <= 2 && AllDigits(prefixPart)) then None
    else if DecimalValue(prefixPart) > 32 then None
    else Some(Network(ip.value, DecimalValue(prefixPart)))
  }

  /** Strict parse of a CIDR; a bare address is a /32 and host bits are cleared. */
  function ParseCidr(input: string): (r: Option<Cidr>) {
    var trimmed := Trim(input);
    var slash := IndexOf(trimmed, '/');
    if slash == -1 then ParseParts(trimmed, "32") else ParseParts(trimmed[..slash], trimmed[slash + 1..])
  }

  /** Clearing the host bits of an address gives the block that has the address. */
  lemma NetworkValid(ip: int, prefix: nat)
    requires 0 <= ip < SPACE && prefix <= 32
    ensures var c := ParsedCidr(ip - ip % Pow2(32 - prefix), prefix); c.Valid() && c.Has(ip)
  {
    var size := Pow2(32 - prefix);
    RoundDown(ip, size);
    AlignedFits(ip - ip % size, prefix);
  }

  lemma AlignedFits(base: int, prefix: nat)
    requires prefix <= 32 && base % Pow2(32 - prefix) == 0 && base < SPACE
    ensures base + Pow2(32 - prefix) <= SPACE
  {
    SpaceAligned(32 - prefix);
    AlignedGap(base, SPACE, Pow2(32 - prefix));
  }

  function PrintCidr(c: Cidr): (text: string) {
    IntToIp(c.base) + "/" + Decimal(c.prefix)
  }

  function Texts(bs: seq<Cidr>): (out: seq<string>)
    ensures |out| == |bs|
    ensures forall i :: 0 <= i < |bs| ==> out[i] == PrintCidr(bs[i])
  {
    seq(|bs|, i requires 0 <= i < |bs| => PrintCidr(bs[i]))
  }

  lemma {:induction false} JoinChars(parts: seq<string>)
    requires |parts| >= 1 && forall i :: 0 <= i < |parts| ==> parts[i] != [] && AllDigits(parts[i])
    ensures var s := Join(parts, '.');
            && s != [] && IsDigit(s[0])
            && forall i :: 0 <= i < |s| ==> IsDigit(s[i]) || s[i] == '.'
  {
    if |parts| > 1 {
      JoinChars(parts[1..]);
    }
  }

  /** A trimmed text with one slash is parsed piece by piece. */
  lemma ParsePieces(ip: string, prefix: string)
    requires ip != [] && '/' !in ip && !IsSpace(ip[0])
    requires prefix != [] && AllDigits(prefix)
    ensures var text := ip + "/" + prefix;
            && Trim(text) == text
            && IndexOf(text, '/') == |ip|
            && text[..|ip|] == ip
            && text[|ip| + 1..] == prefix
  {
    var text := ip + "/" + prefix;
    assert text == ip + ['/'] + prefix;
    assert text[0] == ip[0] && text[|text| - 1] == prefix[|prefix| - 1];
    TrimNothing(text);
    IndexOfPrefix(ip, '/', prefix);
  }

  /** Printing a block and parsing it back gives the block. */
  lemma CidrRoundTrip(c: Cidr)
    ensures ParseCidr(PrintCidr(c)) == Some(c)
  {
    JoinChars(Octets(c.base));
    ParsePieces(IntToIp(c.base), Decimal(c.prefix));
    ParsePrinted(c);
  }

  lemma ParsePrinted(c: Cidr)
    ensures ParseParts(IntToIp(c.base), Decimal(c.prefix)) == Some(c)
  {
    IpRoundTrip(c.base);
    DecimalRoundTrip(c.prefix);
    NetworkOfBase(c);
  }

  lemma NetworkOfBase(c: Cidr)
    ensures Network(c.base, c.prefix) == c
  {
    AlignedUnique(Network(c.base, c.prefix), c, c.base);
  }

  /** The blocks of the entries that parse, in order; the source skips the others. */
  function ParseAll(cidrs: seq<string>): (bs: seq<Cidr>)
    ensures |bs| <= |cidrs|
  {
    if cidrs == [] then []
    else
      var n := |cidrs| - 1;
      match ParseCidr(cidrs[n])
      case None => ParseAll(cidrs[..n])
      case Some(c) => ParseAll(cidrs[..n]) + [c]
  }

  /** The addresses a list of CIDR strings covers. */
  ghost function Coverage(cidrs: seq<string>): iset<int> {
    Covered(ParseAll(cidrs))
  }

  lemma ParseSnoc(cidrs: seq<string>, text: string, c: Cidr)
    requires ParseCidr(text) == Some(c)
    ensures ParseAll(cidrs + [text]) == ParseAll(cidrs) + [c]
  {
    assert (cidrs + [text])[..|cidrs|] == cidrs;
  }

  lemma TextsConcat(bs: seq<Cidr>, cs: seq<Cidr>)
    ensures Texts(bs + cs) == Texts(bs) + Texts(cs)
  {
  }

  lemma TextsSnoc(bs: seq<Cidr>, c: Cidr)
    ensures Texts(bs + [c]) == Texts(bs) + [PrintCidr(c)]
  {
  }

  lemma {:induction false} ParseTexts(bs: seq<Cidr>)
    ensures ParseAll(Texts(bs)) == bs
  {
    if bs != [] {
      var n := |bs| - 1;
      assert Texts(bs) == Texts(bs[..n]) + [PrintCidr(bs[n])];
      ParseTexts(bs[..n]);
      CidrRoundTrip(bs[n]);
      ParseSnoc(Texts(bs[..n]), PrintCidr(bs[n]), bs[n]);
    }
  }

  lemma {:induction false} CoverageInSpace(cidrs: seq<string>)
    ensures Coverage(cidrs) <= Span(0, SPACE - 1)
  {
  }
}
