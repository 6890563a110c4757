/**
 * apps/api/src/common/ip-alloc.util.ts: the lenient bitwise parser and the allocation of the first
 * free host address of a subnet.
 */
module IpAlloc {
  import opened Results
  import opened Sets
  import opened Powers
  import opened Blocks
  import opened Text
  import opened CidrText
  import opened Notation
  import opened Bits

  // ---------------------------------------------------------------- parsing

  /** Number(text) for an optional run of digits between white space. */
  function NumberOf(text: string): (r: Option<nat>) {
    var trimmed := Trim(text);
    if AllDigits(trimmed) then Some(DecimalValue(trimmed)) else None
  }

  predicate OctetNumber(part: string) {
    NumberOf(part).Some? && NumberOf(part).value <= 255
  }

  datatype Quad = Quad(a: nat, b: nat, c: nat, d: nat) {
    predicate Valid() {
      a <= 255 && b <= 255 && c <= 255 && d <= 255
    }

    function Value(): (v: Word)
      requires Valid()
    {
      a * 16777216 + b * 65536 + c * 256 + d
    }
  }

  function QuadOf(ip: string): (r: Option<Quad>)
    ensures r.Some? ==> r.value.Valid()
  {
    var parts := Split(ip, '.');
    if |parts| == 4 && OctetNumber(parts[0]) && OctetNumber(parts[1]) && OctetNumber(parts[2]) && OctetNumber(parts[3])
    then
      Some(Quad(NumberOf(parts[0]).value, NumberOf(parts[1]).value, NumberOf(parts[2]).value, NumberOf(parts[3]).value))
    else None
  }

  /** ((a << 24) | (b << 16) | (c << 8) | d) >>> 0; None where the source throws. */
  function IpToWord(ip: string): (r: Option<Word>)
    ensures r.Some? <==> QuadOf(ip).Some?
    ensures r.Some? ==> r.value == QuadOf(ip).value.Value()
  {
    match QuadOf(ip)
    case None => None
    case Some(q) => PackSum(q); Some(BitOr(BitOr(BitOr(Shl32(q.a, 24), Shl32(q.b, 16)), Shl32(q.c, 8)), q.d))
  }

  lemma PackSum(q: Quad)
    requires q.Valid()
    ensures BitOr(BitOr(BitOr(Shl32(q.a, 24), Shl32(q.b, 16)), Shl32(q.c, 8)), q.d) == q.Value()
  {
    hide BitOr, Shl32;
    Pow2Of32();
    ShlSmall(q.a, 24);
    ShlSmall(q.b, 16);
    ShlSmall(q.c, 8);
    OrChain(q.a, q.b, q.c, q.d);
  }

  lemma OrChain(a: nat, b: nat, c: nat, d: nat)
    requires b <= 255 && c <= 255 && d <= 255
    ensures BitOr(BitOr(BitOr(a * 16777216, b * 65536), c * 256), d) == a * 16777216 + b * 65536 + c * 256 + d
  {
    hide BitOr;
    Pow2Of32();
    DivModUnique(a * 16777216, 16777216, a, 0);
    OrDisjoint(a * 16777216, b * 65536, 24);
    DivModUnique(a * 16777216 + b * 65536, 65536, a * 256 + b, 0);
    OrDisjoint(a * 16777216 + b * 65536, c * 256, 16);
    DivModUnique(a * 16777216 + b * 65536 + c * 256, 256, a * 65536 + b * 256 + c, 0);
    OrDisjoint(a * 16777216 + b * 65536 + c * 256, d, 8);
  }

  function WordToIp(w: Word): (ip: string)
    ensures ip == IntToIp(w)
  {
    UnpackOctets(w);
    Join([
      Decimal(BitAnd(Shr32(w, 24), 255)), Decimal(BitAnd(Shr32(w, 16), 255)),
      Decimal(BitAnd(Shr32(w, 8), 255)), Decimal(BitAnd(w, 255))], '.')
  }

  lemma UnpackOctets(w: Word)
    ensures BitAnd(Shr32(w, 24), 255) == w / 16777216 % 256 && BitAnd(Shr32(w, 16), 255) == w / 65536 % 256
    ensures BitAnd(Shr32(w, 8), 255) == w / 256 % 256 && BitAnd(w, 255) == w % 256
  {
    Pow2Of32();
    ShrIsDiv(w, 24);
    ShrIsDiv(w, 16);
    ShrIsDiv(w, 8);
    AndLow(w / 16777216, 8);
    AndLow(w / 65536, 8);
    AndLow(w / 256, 8);
    AndLow(w, 8);
  }

  datatype SubnetInfo = SubnetInfo(network: Word, broadcast: Word, prefix: nat)

  function Mask(prefix: nat): (m: Word)
    requires prefix <= 32
  {
    if prefix == 0 then 0 else Shl32(SPACE - 1, 32 - prefix)
  }

  /** The address and the prefix length in a CIDR text; None where the source throws. */
  function SubnetText(cidr: string): (r: Option<(Word, nat)>)
    ensures r.Some? ==> r.value.1 <= 32
  {
    var parts := Split(cidr, '/');
    if |parts| < 2 || NumberOf(parts[1]).None? || NumberOf(parts[1]).value > 32 || IpToWord(parts[0]).None? then None
    else Some((IpToWord(parts[0]).value, NumberOf(parts[1]).value))
  }

  function ParseSubnet(cidr: string): (r: Option<SubnetInfo>) {
    match SubnetText(cidr)
    case None => None
    case Some((ip, prefix)) => Some(SubnetOf(ip, prefix))
  }

  function SubnetOf(ip: Word, prefix: nat): (s: SubnetInfo)
    requires prefix <= 32
  {
    MaskSplits(ip, prefix);
    var mask := Mask(prefix);
    var network := BitAnd(ip, mask);
    SubnetInfo(network, BitOr(network, Not32(mask)), prefix)
  }

  lemma MaskValue(prefix: nat)
    requires prefix <= 32
    ensures Mask(prefix) == SPACE - Pow2(32 - prefix)
  {
    Pow2Of32();
    if prefix > 0 {
      ShlOnes(32 - prefix);
    }
  }

  lemma MaskSplits(ip: Word, prefix: nat)
    requires prefix <= 32
    ensures var network := BitAnd(ip, Mask(prefix));
            && network == ip - ip % Pow2(32 - prefix)
            && BitOr(network, Not32(Mask(prefix))) == network + Pow2(32 - prefix) - 1 < SPACE
  {
    hide BitAnd, BitOr, Shl32, Mask;
    MaskValue(prefix);
    Pow2Of32();
    AndHigh(ip, 32 - prefix, 32);
    RoundDown(ip, Pow2(32 - prefix));
    HostBits(ip - ip % Pow2(32 - prefix), prefix);
  }

  lemma HostBits(network: nat, prefix: nat)
    requires prefix <= 32 && network < SPACE && network % Pow2(32 - prefix) == 0
    ensures BitOr(network, Pow2(32 - prefix) - 1) == network + Pow2(32 - prefix) - 1 < SPACE
  {
    OrDisjoint(network, Pow2(32 - prefix) - 1, 32 - prefix);
    AlignedFits(network, prefix);
  }

  // ---------------------------------------------------------------- agreement with the strict parser

  lemma PaddedNumber(lead: string, digits: string, trail: string)
    requires AllSpaces(lead) && AllSpaces(trail) && digits != [] && AllDigits(digits)
    ensures NumberOf(lead + digits + trail) == Some(DecimalValue(digits))
  {
    assert lead + digits + trail == lead + (digits + trail);
    TrimLead(lead, digits + trail);
    TrimTrail(digits, trail);
  }

  lemma PaddedIp(lead: string, ip: string)
    requires AllSpaces(lead) && IpValue(ip).Some?
    ensures QuadOf(lead + ip).Some? && QuadOf(lead + ip).value.Value() == IpValue(ip).value
  {
    assert '.' !in lead;
    SplitPrefixed(lead, ip, '.');
    var parts := Split(ip, '.');
    PaddedQuad(lead, lead + ip, parts[0], parts[1], parts[2], parts[3]);
  }

  lemma PaddedQuad(lead: string, padded: string, a: string, b: string, c: string, d: string)
    requires AllSpaces(lead) && Split(padded, '.') == [lead + a, b, c, d]
    requires IsOctet(a) && IsOctet(b) && IsOctet(c) && IsOctet(d)
    ensures QuadOf(padded) == Some(Quad(DecimalValue(a), DecimalValue(b), DecimalValue(c), DecimalValue(d)))
  {
    NumberOfOctet(lead, a);
    NumberOfOctet("", b);
    NumberOfOctet("", c);
    NumberOfOctet("", d);
    QuadOfParts(padded, lead + a, b, c, d, Quad(DecimalValue(a), DecimalValue(b), DecimalValue(c), DecimalValue(d)));
  }

  lemma QuadOfParts(ip: string, a: string, b: string, c: string, d: string, q: Quad)
    requires Split(ip, '.') == [a, b, c, d] && q.Valid()
    requires NumberOf(a) == Some(q.a) && NumberOf(b) == Some(q.b) && NumberOf(c) == Some(q.c) && NumberOf(d) == Some(q.d)
    ensures QuadOf(ip) == Some(q)
  {
  }

  lemma NumberOfOctet(lead: string, part: string)
    requires AllSpaces(lead) && IsOctet(part)
    ensures NumberOf(lead + part) == Some(DecimalValue(part))
    ensures "" + part == part
  {
    PaddedNumber(lead, part, "");
    assert lead + part + "" == lead + part;
  }

  lemma SubnetOfNetwork(ip: Word, prefix: nat)
    requires prefix <= 32
    ensures var c := Network(ip, prefix);
            SubnetOf(ip, prefix) == SubnetInfo(c.base, c.base + c.Size() - 1, prefix)
  {
    MaskSplits(ip, prefix);
  }

  /**
   * On every text with a slash that the strict parser accepts, the lenient parser finds the same
   * network and prefix, and the end of the strict parser's range as the broadcast address.
   */
  lemma ParsersAgree(input: string, c: Cidr)
    requires '/' in input && ParseCidr(input) == Some(c)
    ensures ParseSubnet(input) == Some(SubnetInfo(c.base, c.base + c.Size() - 1, c.prefix))
  {
    hide ParseCidr, SubnetText, SubnetOf, IpValue, DecimalValue, Network;
    var lead, ip, prefix, trail := ParsedPieces(input, c);
    PartsAgree(input, lead, ip, prefix, trail, IpValue(ip).value, DecimalValue(prefix));
    SubnetOfNetwork(IpValue(ip).value, DecimalValue(prefix));
  }

  lemma ParsedPieces(input: string, c: Cidr) returns (lead: string, ip: string, prefix: string, trail: string)
    requires '/' in input && ParseCidr(input) == Some(c)
    ensures AllSpaces(lead) && AllSpaces(trail) && '/' !in ip
    ensures input == (lead + ip) + ['/'] + (prefix + trail)
    ensures IpValue(ip).Some? && prefix != [] && AllDigits(prefix) && DecimalValue(prefix) <= 32
    ensures c == Network(IpValue(ip).value, DecimalValue(prefix))
  {
    hide ParseParts, TrimStart, TrimEnd, IpValue, DecimalValue, Network;
    lead := TrimStartEnds(input);
    trail := TrimEndEnds(TrimStart(input));
    var trimmed := Trim(input);
    assert input == lead + trimmed + trail;
    SlashKept(lead, trimmed, trail);
    var slash := IndexOf(trimmed, '/');
    ip, prefix := trimmed[..slash], trimmed[slash + 1..];
    assert trimmed == ip + ['/'] + prefix;
    ParsedParts(ip, prefix);
  }

  lemma ParsedParts(ip: string, prefix: string)
    requires ParseParts(ip, prefix).Some?
    ensures IpValue(ip).Some? && prefix != [] && AllDigits(prefix) && DecimalValue(prefix) <= 32
    ensures ParseParts(ip, prefix) == Some(Network(IpValue(ip).value, DecimalValue(prefix)))
  {
  }

  lemma SlashKept(lead: string, core: string, trail: string)
    requires AllSpaces(lead) && AllSpaces(trail) && '/' in lead + core + trail
    ensures '/' in core
  {
  }

  lemma PartsAgree(input: string, lead: string, ip: string, prefix: string, trail: string, value: Word, n: nat)
    requires AllSpaces(lead) && AllSpaces(trail) && '/' !in ip && IpValue(ip) == Some(value)
    requires prefix != [] && AllDigits(prefix) && DecimalValue(prefix) == n <= 32
    requires input == (lead + ip) + ['/'] + (prefix + trail)
    ensures SubnetText(input) == Some((value, n))
  {
    PaddedPrefix(prefix, trail);
    PaddedIp(lead, ip);
    NoSlash(lead, ip);
    NoSlash(trail, prefix);
    PiecesAgree(input, lead + ip, prefix + trail, value, n);
  }

  lemma NoSlash(spaces: string, text: string)
    requires AllSpaces(spaces) && '/' !in text
    ensures '/' !in spaces + text && '/' !in text + spaces
  {
  }

  lemma PiecesAgree(input: string, ip: string, prefix: string, value: Word, n: nat)
    requires input == ip + ['/'] + prefix && '/' !in ip && '/' !in prefix
    requires NumberOf(prefix) == Some(n) && n <= 32
    requires QuadOf(ip).Some? && QuadOf(ip).value.Value() == value
    ensures SubnetText(input) == Some((value, n))
  {
    SlashedSplits(ip, prefix);
  }

  lemma PaddedPrefix(prefix: string, trail: string)
    requires AllSpaces(trail) && prefix != [] && AllDigits(prefix)
    ensures NumberOf(prefix + trail) == Some(DecimalValue(prefix))
  {
    assert "" + prefix + trail == prefix + trail;
    PaddedNumber("", prefix, trail);
  }

  lemma SlashedSplits(left: string, right: string)
    requires '/' !in left && '/' !in right
    ensures Split(left + ['/'] + right, '/') == [left, right]
  {
    SplitFirst(left, '/', right);
    assert IndexOf(right, '/') < 0;
  }

  // ---------------------------------------------------------------- what the lenient parser reads

  /** Digits, perhaps none, between white space. */
  predicate PaddedDigits(text: string, lead: string, digits: string, trail: string, n: nat) {
    && text == lead + digits + trail
    && AllSpaces(lead) && AllSpaces(trail) && AllDigits(digits)
    && DecimalValue(digits) == n
  }

  lemma NumberOfIff(text: string, n: nat)
    ensures NumberOf(text) == Some(n) <==> exists lead, digits, trail :: PaddedDigits(text, lead, digits, trail, n)
  {
    hide DecimalValue, TrimStart, TrimEnd;
    var lead := TrimStartEnds(text);
    var trail := TrimEndEnds(TrimStart(text));
    assert text == lead + Trim(text) + trail;
    if NumberOf(text) == Some(n) {
      assert PaddedDigits(text, lead, Trim(text), trail, n);
    }
    if exists l, d, t :: PaddedDigits(text, l, d, t, n) {
      var l, d, t :| PaddedDigits(text, l, d, t, n);
      if d == [] {
        assert text == l + t;
        SpacesTrim(text);
      } else {
        PaddedNumber(l, d, t);
      }
    }
  }

  lemma {:induction false} SpacesTrimStart(s: string)
    requires AllSpaces(s)
    ensures TrimStart(s) == []
  {
    if s != [] { SpacesTrimStart(s[1..]); }
  }

  lemma SpacesTrim(s: string)
    requires AllSpaces(s)
    ensures Trim(s) == []
  {
    SpacesTrimStart(s);
  }

  /** Four pieces between dots, each a number of at most 255, and their positional value. */
  ghost predicate QuadSpelled(text: string, a: string, b: string, c: string, d: string, w: int) {
    && text == Dotted(a, b, c, d)
    && '.' !in a && '.' !in b && '.' !in c && '.' !in d
    && OctetNumber(a) && OctetNumber(b) && OctetNumber(c) && OctetNumber(d)
    && w == ((NumberOf(a).value * 256 + NumberOf(b).value) * 256 + NumberOf(c).value) * 256 + NumberOf(d).value
  }

  /** A text is read as an address exactly when it spells its four octets. */
  lemma IpToWordIff(text: string, w: int)
    ensures IpToWord(text) == Some(w) <==> exists a, b, c, d :: QuadSpelled(text, a, b, c, d, w)
  {
    hide IpToWord, QuadSpelled;
    if IpToWord(text) == Some(w) {
      QuadSpelling(text, w);
    }
    if exists a, b, c, d :: QuadSpelled(text, a, b, c, d, w) {
      var a, b, c, d :| QuadSpelled(text, a, b, c, d, w);
      SpelledQuad(text, a, b, c, d, w);
    }
  }

  lemma QuadSpelling(text: string, w: int)
    requires IpToWord(text) == Some(w)
    ensures var parts := Split(text, '.'); |parts| == 4 && QuadSpelled(text, parts[0], parts[1], parts[2], parts[3], w)
  {
    hide NumberOf, Split, Join, Dotted, IpToWord;
    var parts := Split(text, '.');
    JoinSplit(text, '.');
    SplitFree(text, '.');
    assert parts == [parts[0], parts[1], parts[2], parts[3]];
    JoinDotted(parts[0], parts[1], parts[2], parts[3]);
  }

  lemma SpelledQuad(text: string, a: string, b: string, c: string, d: string, w: int)
    requires QuadSpelled(text, a, b, c, d, w)
    ensures IpToWord(text) == Some(w)
  {
    hide NumberOf, Split, Join, Dotted, IpToWord, QuadOf;
    JoinDotted(a, b, c, d);
    SplitJoin([a, b, c, d], '.');
    QuadOfParts(text, a, b, c, d, Quad(NumberOf(a).value, NumberOf(b).value, NumberOf(c).value, NumberOf(d).value));
  }

  lemma {:induction false} SplitFree(s: string, sep: char)
    ensures forall i :: 0 <= i < |Split(s, sep)| ==> sep !in Split(s, sep)[i]
  {
    var i := IndexOf(s, sep);
    if i >= 0 { SplitFree(s[i + 1..], sep); }
  }

  /** An address, a slash, a prefix length and perhaps more behind another slash; s is their block. */
  ghost predicate SubnetSpelled(text: string, ip: string, prefix: string, rest: string, s: SubnetInfo) {
    && text == ip + ['/'] + prefix + rest && '/' !in ip && '/' !in prefix && (rest == "" || rest[0] == '/')
    && IpToWord(ip).Some? && NumberOf(prefix) == Some(s.prefix) && s.prefix <= 32
    && s.network <= IpToWord(ip).value <= s.broadcast
    && s.network % Pow2(32 - s.prefix) == 0 && s.broadcast == s.network + Pow2(32 - s.prefix) - 1
  }

  /** A text is read as a subnet exactly when it spells it. */
  lemma ParseSubnetIff(text: string, s: SubnetInfo)
    ensures ParseSubnet(text) == Some(s) <==> exists ip, prefix, rest :: SubnetSpelled(text, ip, prefix, rest, s)
  {
    hide SubnetSpelled, ParseSubnet;
    if ParseSubnet(text) == Some(s) {
      var ip, prefix, rest := SubnetPieces(text, s);
    }
    if exists ip, prefix, rest :: SubnetSpelled(text, ip, prefix, rest, s) {
      var ip, prefix, rest :| SubnetSpelled(text, ip, prefix, rest, s);
      SpelledSubnet(text, ip, prefix, rest, s);
    }
  }

  lemma SubnetPieces(text: string, s: SubnetInfo) returns (ip: string, prefix: string, rest: string)
    requires ParseSubnet(text) == Some(s)
    ensures SubnetSpelled(text, ip, prefix, rest, s)
  {
    hide NumberOf, IpToWord, SubnetOf, Split;
    rest := FirstTwo(text);
    ip, prefix := Split(text, '/')[0], Split(text, '/')[1];
    SubnetOfNetwork(IpToWord(ip).value, NumberOf(prefix).value);
  }

  lemma FirstTwo(text: string) returns (rest: string)
    requires |Split(text, '/')| >= 2
    ensures var parts := Split(text, '/');
            && text == parts[0] + ['/'] + parts[1] + rest
            && '/' !in parts[0] && '/' !in parts[1] && (rest == "" || rest[0] == '/')
  {
    hide Split;
    var tail := FirstSplit(text);
    rest := FirstOne(tail);
  }

  lemma FirstSplit(text: string) returns (tail: string)
    requires |Split(text, '/')| >= 2
    ensures Split(text, '/') == [Split(text, '/')[0]] + Split(tail, '/')
    ensures '/' !in Split(text, '/')[0] && text == Split(text, '/')[0] + ['/'] + tail
  {
    hide Split, IndexOf;
    SplitCases(text, '/');
    IndexSplits(text, '/');
    tail := text[IndexOf(text, '/') + 1..];
  }

  lemma FirstOne(text: string) returns (rest: string)
    ensures text == Split(text, '/')[0] + rest && '/' !in Split(text, '/')[0] && (rest == "" || rest[0] == '/')
  {
    hide Split, IndexOf;
    SplitCases(text, '/');
    if '/' in text {
      IndexSplits(text, '/');
      rest := text[IndexOf(text, '/')..];
    } else {
      rest := "";
    }
  }

  lemma SpelledSubnet(text: string, ip: string, prefix: string, rest: string, s: SubnetInfo)
    requires SubnetSpelled(text, ip, prefix, rest, s)
    ensures ParseSubnet(text) == Some(s)
  {
    hide NumberOf, IpToWord, SubnetOf, Split, Pow2;
    var w := IpToWord(ip).value;
    assert text == ip + ['/'] + (prefix + rest);
    SplitFirst(ip, '/', prefix + rest);
    if rest == "" {
      assert prefix + rest == prefix;
      SplitNone(prefix);
    } else {
      assert prefix + rest == prefix + ['/'] + rest[1..];
      SplitFirst(prefix, '/', rest[1..]);
    }
    SubnetOfNetwork(w, s.prefix);
    OneBlock(s.network, w, s.prefix);
  }

  lemma SplitNone(s: string)
    requires '/' !in s
    ensures Split(s, '/') == [s]
  {
    assert IndexOf(s, '/') < 0;
  }

  lemma OneBlock(network: nat, w: Word, prefix: nat)
    requires prefix <= 32 && network % Pow2(32 - prefix) == 0 && network <= w <= network + Pow2(32 - prefix) - 1
    ensures Network(w, prefix).base == network && Network(w, prefix).Size() == Pow2(32 - prefix)
  {
    AlignedFits(network, prefix);
    var c: Cidr := ParsedCidr(network, prefix);
    AlignedUnique(Network(w, prefix), c, w);
  }

  // ---------------------------------------------------------------- allocation

  datatype AllocError = Malformed | Exhausted

  /** The address part of an address or CIDR text. */
  function HostPart(text: string): (host: string) {
    Split(text, '/')[0]
  }

  predicate AllWellFormed(ips: set<string>) {
    forall ip :: ip in ips ==> IpToWord(HostPart(ip)).Some?
  }

  /** The numbers of a set of addresses. */
  function WordsOf(ips: set<string>): (words: set<int>)
    requires AllWellFormed(ips)
  {
    set ip | ip in ips :: IpToWord(HostPart(ip)).value
  }

  /** The least number of from..limit-1 that is not used. */
  function LeastFree(from: int, limit: int, used: set<int>): (r: Option<int>)
    ensures r.Some? ==> from <= r.value < limit && r.value !in used && forall h :: from <= h < r.value ==> h in used
    ensures r.None? ==> forall h :: from <= h < limit ==> h in used
    decreases limit - from
  {
    if from >= limit then None
    else if from !in used then Some(from)
    else LeastFree(from + 1, limit, used)
  }

  /** The hosts of a subnet: neither its network address nor its broadcast address. */
  function Hosts(s: SubnetInfo): (hs: set<int>) {
    Interval(s.network + 1, s.broadcast)
  }

  /** What nextFreeIp returns or throws, given the addresses in use. */
  function FirstFreeIp(subnetCidr: string, serverAddress: string, used: set<string>): (r: Result<string, AllocError>) {
    if ParseSubnet(subnetCidr).None? || IpToWord(HostPart(serverAddress)).None? || !AllWellFormed(used) then Err(Malformed)
    else
      var free := FreeHost(ParseSubnet(subnetCidr).value, IpToWord(HostPart(serverAddress)).value, WordsOf(used));
      if free.None? then Err(Exhausted) else Ok(IntToIp(free.value))
  }

  function FreeHost(s: SubnetInfo, server: Word, used: set<int>): (r: Option<Word>)
    ensures r.Some? ==> r.value in Hosts(s) && r.value != server && r.value !in used
    ensures r == LeastFree(s.network + 1, s.broadcast, used + {server})
  {
    LeastFree(s.network + 1, s.broadcast, used + {server})
  }

  /** The part before the first slash, or the whole text. */
  lemma HostPartIff(text: string, host: string)
    ensures HostPart(text) == host <==>
            '/' !in host && host <= text && (|host| == |text| || text[|host|] == '/')
  {
    var i := IndexOf(text, '/');
    if '/' !in host && host <= text && (|host| == |text| || text[|host|] == '/') {
      if |host| < |text| {
        assert text == host + ['/'] + text[|host| + 1..];
        IndexOfPrefix(host, '/', text[|host| + 1..]);
      } else {
        assert text == host;
      }
    }
  }

  /** Some address in use has the number h. */
  predicate Taken(used: set<string>, h: int) {
    exists ip :: ip in used && IpToWord(HostPart(ip)) == Some(h)
  }

  /** h lies strictly between network and broadcast, is neither the server nor taken, and is the least such. */
  predicate IsLeastFree(s: SubnetInfo, server: int, used: set<string>, h: int) {
    && s.network < h < s.broadcast && h != server && !Taken(used, h)
    && forall k :: s.network < k < h ==> k == server || Taken(used, k)
  }

  predicate SomeMalformed(used: set<string>) {
    exists ip :: ip in used && IpToWord(HostPart(ip)).None?
  }

  /**
   * The address allocated is the least free host, printed; allocation fails as malformed exactly when
   * one of the texts is, and as exhausted exactly when every host is the server or taken.
   */
  lemma AllocationMeans(subnetCidr: string, serverAddress: string, used: set<string>)
    ensures var r := FirstFreeIp(subnetCidr, serverAddress, used);
            var malformed :=
              ParseSubnet(subnetCidr).None? || IpToWord(HostPart(serverAddress)).None? || SomeMalformed(used);
            && (r == Err(Malformed) <==> malformed)
            && (!malformed ==>
                  var s, server := ParseSubnet(subnetCidr).value, IpToWord(HostPart(serverAddress)).value;
                  && (r.Ok? ==> exists h: Word :: IsLeastFree(s, server, used, h) && r.value == IntToIp(h))
                  && (r == Err(Exhausted) <==> forall h :: s.network < h < s.broadcast ==> h == server || Taken(used, h)))
  {
    hide ParseSubnet, IpToWord, HostPart, IntToIp, FreeHost, WordsOf, IsLeastFree, Taken;
    if ParseSubnet(subnetCidr).Some? && IpToWord(HostPart(serverAddress)).Some? && AllWellFormed(used) {
      FreeMeans(ParseSubnet(subnetCidr).value, IpToWord(HostPart(serverAddress)).value, used);
    }
  }

  lemma FreeMeans(s: SubnetInfo, server: Word, used: set<string>)
    requires AllWellFormed(used)
    ensures var free := FreeHost(s, server, WordsOf(used));
            && (free.Some? ==> IsLeastFree(s, server, used, free.value))
            && (free.None? <==> forall h :: s.network < h < s.broadcast ==> h == server || Taken(used, h))
  {
    hide IpToWord, HostPart, LeastFree, WordsOf, Taken, AllWellFormed, Hosts;
    var taken := WordsOf(used) + {server as int};
    forall h: int
      ensures h in taken <==> h == server || Taken(used, h)
    {
      WordsTaken(used, h);
    }
    var free := LeastFree(s.network + 1, s.broadcast, taken);
    if free.None? {
      forall h | s.network < h < s.broadcast
        ensures h == server || Taken(used, h)
      {
        assert h in taken;
      }
    } else {
      forall k | s.network < k < free.value
        ensures k == server || Taken(used, k)
      {
        assert k in taken;
      }
      assert free.value !in taken;
    }
  }

  lemma WordsTaken(used: set<string>, h: int)
    requires AllWellFormed(used)
    ensures h in WordsOf(used) <==> Taken(used, h)
  {
    hide IpToWord, HostPart;
  }

  method NextFreeIp(subnetCidr: string, serverAddress: string, usedIps: seq<string>)
    returns (r: Result<string, AllocError>)
    ensures r == FirstFreeIp(subnetCidr, serverAddress, Elements(usedIps))
  {
    hide ParseSubnet, IpToWord, LeastFree, WordToIp, IntToIp, HostPart, AllWellFormed, WordsOf, Elements, Hosts;
    var subnet := ParseSubnet(subnetCidr);
    var server := IpToWord(HostPart(serverAddress));
    if subnet.None? || server.None? {
      return Err(Malformed);
    }
    var used := CollectWords(usedIps);
    if used.None? {
      return Err(Malformed);
    }
    var free := ScanHosts(subnet.value.network, subnet.value.broadcast, used.value + {server.value});
    match free
    case Some(h) => r := Ok(WordToIp(h));
    case None => r := Err(Exhausted);
  }

  /** new Set(usedIps.map(...)); None where the source throws. */
  method CollectWords(usedIps: seq<string>) returns (r: Option<set<int>>)
    ensures var ips := Elements(usedIps); r == if AllWellFormed(ips) then Some(WordsOf(ips)) else None
  {
    hide IpToWord, HostPart, WordsOf, Elements;
    var used: set<int> := {};
    ghost var seen: set<string> := {};
    NoWords();
    ElementsNone(usedIps);
    for i := 0 to |usedIps|
      invariant seen == Elements(usedIps[..i])
      invariant AllWellFormed(seen) && used == WordsOf(seen)
    {
      var word := IpToWord(HostPart(usedIps[i]));
      if word.None? {
        ElementsHold(usedIps, i);
        return None;
      }
      AddWord(seen, usedIps[i]);
      ElementsSnoc(usedIps, i);
      used := used + {word.value};
      seen := seen + {usedIps[i]};
    }
    assert usedIps[..|usedIps|] == usedIps;
    return Some(used);
  }

  function Elements(ips: seq<string>): (es: set<string>)
    ensures forall ip :: ip in es <==> ip in ips
  {
    set ip | ip in ips
  }

  lemma ElementsNone(ips: seq<string>)
    ensures Elements(ips[..0]) == {}
  {
  }

  lemma ElementsHold(ips: seq<string>, i: nat)
    requires i < |ips|
    ensures ips[i] in Elements(ips)
  {
  }

  lemma ElementsSnoc(ips: seq<string>, i: nat)
    requires i < |ips|
    ensures Elements(ips[..i + 1]) == Elements(ips[..i]) + {ips[i]}
  {
    assert ips[..i + 1] == ips[..i] + [ips[i]];
  }

  lemma NoWords()
    ensures WordsOf({}) == {}
  {
  }

  lemma AddWord(ips: set<string>, ip: string)
    requires AllWellFormed(ips) && IpToWord(HostPart(ip)).Some?
    ensures WordsOf(ips + {ip}) == WordsOf(ips) + {IpToWord(HostPart(ip)).value}
  {
    hide IpToWord, HostPart;
  }

  /** The loop of nextFreeIp. */
  method ScanHosts(network: Word, broadcast: Word, used: set<int>) returns (r: Option<int>)
    ensures r == LeastFree(network + 1, broadcast, used)
  {
    var candidate: int := network + 1;
    while candidate < broadcast
      invariant network < candidate
      invariant LeastFree(network + 1, broadcast, used) == LeastFree(candidate, broadcast, used)
      decreases broadcast - candidate
    {
      if candidate !in used {
        return Some(candidate);
      }
      candidate := candidate + 1;
    }
    return None;
  }

  /** The number of assignable addresses: the hosts without the server. */
  function PoolCapacity(s: SubnetInfo): (n: nat) {
    if s.broadcast - s.network - 2 > 0 then s.broadcast - s.network - 2 else 0
  }

  /** The capacity counts the hosts other than the server exactly when the server is one, or there are none. */
  lemma CapacityCounts(s: SubnetInfo, server: int)
    ensures |Hosts(s) - {server}| == PoolCapacity(s) <==> server in Hosts(s) || Hosts(s) == {}
  {
    if s.network + 1 <= s.broadcast {
      assert |Hosts(s)| == s.broadcast - s.network - 1;
    }
    if server in Hosts(s) {
      assert |Hosts(s) - {server}| == |Hosts(s)| - 1;
    } else {
      assert Hosts(s) - {server} == Hosts(s);
    }
  }

  /** 10.66.66.0 */
  const LAN: Word := 10 * 16777216 + 66 * 65536 + 66 * 256

  /** 10.66.66.0/24 with a server outside it: 254 addresses can be assigned, but the capacity is 253. */
  lemma CapacityMiscounts(server: int)
    requires server !in Hosts(SubnetOf(LAN, 24))
    ensures |Hosts(SubnetOf(LAN, 24)) - {server}| == 254 && PoolCapacity(SubnetOf(LAN, 24)) == 253
  {
    hide SubnetOf;
    LanSubnet();
    assert Hosts(SubnetOf(LAN, 24)) - {server} == Hosts(SubnetOf(LAN, 24));
  }

  lemma LanSubnet()
    ensures SubnetOf(LAN, 24) == SubnetInfo(LAN, LAN + 255, 24)
  {
    hide SubnetOf, Pow2;
    SubnetOfNetwork(LAN, 24);
    Pow2Of32();
  }

  /** The pool is exhausted exactly when every assignable host is used. */
  lemma ExhaustedIff(s: SubnetInfo, server: int, used: set<int>)
    ensures LeastFree(s.network + 1, s.broadcast, used + {server}).None? <==> Hosts(s) - {server} <= used
  {
    var r := LeastFree(s.network + 1, s.broadcast, used + {server});
    if r.Some? {
      assert r.value in Hosts(s) - {server};
    } else {
      assert forall h :: h in Hosts(s) ==> h in used + {server};
    }
  }

  /** With fewer addresses in use than the capacity there is always a free host. */
  lemma FreeBelowCapacity(s: SubnetInfo, server: int, used: set<int>)
    requires server in Hosts(s) && |used| < PoolCapacity(s)
    ensures LeastFree(s.network + 1, s.broadcast, used + {server}).Some?
  {
    CapacityCounts(s, server);
    ExhaustedIff(s, server, used);
    if Hosts(s) - {server} <= used {
      SubsetSize(Hosts(s) - {server}, used);
    }
  }

  /** A printed address is read back as its number. */
  lemma PrintedIpParses(h: Word)
    ensures IpToWord(HostPart(IntToIp(h))) == Some(h)
  {
    hide IpValue, QuadOf;
    var ip := IntToIp(h);
    JoinChars(Octets(h));
    assert IndexOf(ip, '/') < 0;
    IpRoundTrip(h);
    assert "" + ip == ip;
    PaddedIp("", ip);
  }

  /** The numbers of a set of addresses are no more than the addresses. */
  lemma {:induction false} WordsOfSize(ips: set<string>)
    requires AllWellFormed(ips)
    ensures |WordsOf(ips)| <= |ips|
  {
    hide IpToWord, HostPart;
    if ips == {} {
      assert WordsOf(ips) == {};
    } else {
      var ip :| ip in ips;
      WordsOfSize(ips - {ip});
      assert WordsOf(ips) == WordsOf(ips - {ip}) + {IpToWord(HostPart(ip)).value};
    }
  }

  /** h is a host of the subnet other than the server. */
  predicate AssignableHost(subnetCidr: string, serverAddress: string, h: Word) {
    && ParseSubnet(subnetCidr).Some?
    && IpToWord(HostPart(serverAddress)).Some?
    && h in Hosts(ParseSubnet(subnetCidr).value)
    && h != IpToWord(HostPart(serverAddress)).value
  }

  ghost predicate Assignable(subnetCidr: string, serverAddress: string, ip: string) {
    exists h: Word :: AssignableHost(subnetCidr, serverAddress, h) && ip == IntToIp(h)
  }

  /** An allocated address is assignable and was not in use. */
  lemma AllocatedIsFree(subnetCidr: string, serverAddress: string, used: set<string>)
    requires FirstFreeIp(subnetCidr, serverAddress, used).Ok?
    ensures Assignable(subnetCidr, serverAddress, FirstFreeIp(subnetCidr, serverAddress, used).value)
    ensures FirstFreeIp(subnetCidr, serverAddress, used).value !in used
  {
    hide IpToWord, HostPart, ParseSubnet, IntToIp, FreeHost, Hosts;
    var h := FreeHost(ParseSubnet(subnetCidr).value, IpToWord(HostPart(serverAddress)).value, WordsOf(used)).value;
    assert AssignableHost(subnetCidr, serverAddress, h);
    UnusedText(used, h);
  }

  lemma UnusedText(used: set<string>, h: Word)
    requires AllWellFormed(used) && h !in WordsOf(used)
    ensures IntToIp(h) !in used
  {
    hide IpToWord, HostPart, IntToIp;
    PrintedIpParses(h);
  }

  /** Allocation succeeds while fewer well-formed addresses are in use than the capacity. */
  lemma AllocationSucceeds(subnetCidr: string, serverAddress: string, used: set<string>)
    requires ParseSubnet(subnetCidr).Some? && IpToWord(HostPart(serverAddress)).Some?
    requires IpToWord(HostPart(serverAddress)).value in Hosts(ParseSubnet(subnetCidr).value)
    requires AllWellFormed(used) && |used| < PoolCapacity(ParseSubnet(subnetCidr).value)
    ensures FirstFreeIp(subnetCidr, serverAddress, used).Ok?
  {
    hide IpToWord, HostPart, ParseSubnet, IntToIp, LeastFree, WordsOf;
    WordsOfSize(used);
    FreeBelowCapacity(ParseSubnet(subnetCidr).value, IpToWord(HostPart(serverAddress)).value, WordsOf(used));
  }
}
