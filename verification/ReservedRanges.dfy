/** The ranges that cidr.util.ts never lets into a tunnel. */
module ReservedRanges {
  import opened Powers
  import opened Blocks
  import opened Text
  import opened CidrText

  const RESERVED_CIDRS: seq<string> := [
    "0.0.0.0/8", "10.0.0.0/8", "100.64.0.0/10", "127.0.0.0/8", "169.254.0.0/16",
    "172.16.0.0/12", "192.168.0.0/16", "224.0.0.0/4", "240.0.0.0/4"
  ]

  /** First octet, second octet and prefix length of the k-th entry. */
  function Entry(k: nat): (nat, nat, nat) {
    if k == 0 then (0, 0, 8)
    else if k == 1 then (10, 0, 8)
    else if k == 2 then (100, 64, 10)
    else if k == 3 then (127, 0, 8)
    else if k == 4 then (169, 254, 16)
    else if k == 5 then (172, 16, 12)
    else if k == 6 then (192, 168, 16)
    else if k == 7 then (224, 0, 4)
    else (240, 0, 4)
  }

  function EntryBlock(k: nat): (c: Cidr) {
    EntryValid(k);
    ParsedCidr(Entry(k).0 * 16777216 + Entry(k).1 * 65536, Entry(k).2)
  }

  lemma EntryValid(k: nat)
    ensures ParsedCidr(Entry(k).0 * 16777216 + Entry(k).1 * 65536, Entry(k).2).Valid()
    ensures Entry(k).0 <= 255 && Entry(k).1 <= 255
  {
    Pow2Of32();
    assert Pow2(28) == 268435456;
    assert Pow2(22) == 4194304;
    assert Pow2(20) == 1048576;
  }

  /** The networks the nine entries stand for. */
  function ReservedNetworks(): (bs: seq<Cidr>) {
    seq(9, (k: nat) => EntryBlock(k))
  }

  /** All nine entries parse, each to its network. */
  lemma ReservedParse()
    ensures ParseAll(RESERVED_CIDRS) == ReservedNetworks()
  {
    EntriesPrint();
    assert RESERVED_CIDRS == Texts(ReservedNetworks());
    ParseTexts(ReservedNetworks());
  }

  lemma EntriesPrint()
    ensures forall k :: 0 <= k < 9 ==> RESERVED_CIDRS[k] == PrintCidr(EntryBlock(k))
  {
    EntryTexts();
    forall k: nat | k < 9
      ensures PrintCidr(EntryBlock(k)) == NetworkText(Entry(k).0, Entry(k).1, Entry(k).2)
    {
      EntryValid(k);
      NetworkPrints(Entry(k).0, Entry(k).1, EntryBlock(k));
    }
  }

  lemma EntryTexts()
    ensures forall k :: 0 <= k < 9 ==> RESERVED_CIDRS[k] == NetworkText(Entry(k).0, Entry(k).1, Entry(k).2)
  {
    EntryTexts0();
    EntryTexts2();
    EntryTexts4();
    EntryTexts5();
    EntryTexts6();
    EntryTexts7();
  }

  lemma EntryTexts0()
    ensures RESERVED_CIDRS[0] == NetworkText(0, 0, 8)
    ensures RESERVED_CIDRS[1] == NetworkText(10, 0, 8)
  {
    assert Decimal(0) == "0";
    assert Decimal(8) == "8";
    assert Decimal(10) == "10";
  }

  lemma EntryTexts2()
    ensures RESERVED_CIDRS[2] == NetworkText(100, 64, 10)
    ensures RESERVED_CIDRS[3] == NetworkText(127, 0, 8)
  {
    assert Decimal(0) == "0";
    assert Decimal(8) == "8";
    assert Decimal(10) == "10";
    assert Decimal(64) == "64";
    assert Decimal(100) == "100";
    assert Decimal(127) == "127";
  }

  lemma EntryTexts4()
    ensures RESERVED_CIDRS[4] == NetworkText(169, 254, 16)
  {
    assert Decimal(0) == "0";
    assert Decimal(16) == "16";
    assert Decimal(169) == "169";
    assert Decimal(254) == "254";
  }

  lemma EntryTexts5()
    ensures RESERVED_CIDRS[5] == NetworkText(172, 16, 12)
  {
    assert Decimal(0) == "0";
    assert Decimal(12) == "12";
    assert Decimal(16) == "16";
    assert Decimal(172) == "172";
  }

  lemma EntryTexts6()
    ensures RESERVED_CIDRS[6] == NetworkText(192, 168, 16)
  {
    assert Decimal(0) == "0";
    assert Decimal(16) == "16";
    assert Decimal(168) == "168";
    assert Decimal(192) == "192";
  }

  lemma EntryTexts7()
    ensures RESERVED_CIDRS[7] == NetworkText(224, 0, 4)
    ensures RESERVED_CIDRS[8] == NetworkText(240, 0, 4)
  {
    assert Decimal(0) == "0";
    assert Decimal(4) == "4";
    assert Decimal(224) == "224";
    assert Decimal(240) == "240";
  }

  function NetworkText(a: nat, b: nat, prefix: nat): string {
    Decimal(a) + "." + (Decimal(b) + "." + (Decimal(0) + "." + Decimal(0))) + "/" + Decimal(prefix)
  }

  lemma NetworkPrints(a: nat, b: nat, c: Cidr)
    requires a <= 255 && b <= 255 && c.base == a * 16777216 + b * 65536
    ensures PrintCidr(c) == NetworkText(a, b, c.prefix)
  {
    NetworkOctets(c.base, a, b);
    assert Octets(c.base) == [Decimal(a), Decimal(b), Decimal(0), Decimal(0)];
    JoinQuad(Decimal(a), Decimal(b), Decimal(0), Decimal(0));
  }

  lemma NetworkOctets(value: nat, a: nat, b: nat)
    requires a <= 255 && b <= 255 && value == a * 16777216 + b * 65536
    ensures value / 16777216 % 256 == a && value / 65536 % 256 == b && value / 256 % 256 == 0 && value % 256 == 0
  {
    DivModUnique(value, 16777216, a, b * 65536);
    DivModUnique(value, 65536, a * 256 + b, 0);
    DivModUnique(value, 256, a * 65536 + b * 256, 0);
  }

  /** The addresses a to b of the second octet under the first octet x, with everything below. */
  predicate UnderOctets(address: int, x: int, a: int, b: int) {
    x * 16777216 + a * 65536 <= address < x * 16777216 + (b + 1) * 65536
  }

  /**
   * In numbers: 0.x, 10.x, 127.x, 100.64-127.x, 169.254.x, 172.16-31.x, 192.168.x and everything from
   * 224.0.0.0 on.
   */
  predicate IsReserved(address: int) {
    || UnderOctets(address, 0, 0, 255) || UnderOctets(address, 10, 0, 255) || UnderOctets(address, 127, 0, 255)
    || UnderOctets(address, 100, 64, 127) || UnderOctets(address, 169, 254, 254)
    || UnderOctets(address, 172, 16, 31) || UnderOctets(address, 192, 168, 168)
    || 224 * 16777216 <= address < SPACE
  }

  lemma ReservedMeans(address: int)
    ensures address in Coverage(RESERVED_CIDRS) <==> IsReserved(address)
  {
    hide ParseAll, RESERVED_CIDRS, ReservedNetworks, IsReserved, SomeEntryHas, SomeHas;
    ReservedParse();
    EntriesMean(address);
    AnyOfNine(address);
    NetworksHave(address);
  }

  lemma NetworksHave(address: int)
    ensures SomeHas(ReservedNetworks(), address) <==> exists k: nat :: k < 9 && EntryHas(k, address)
  {
    hide EntryBlock;
    var bs := ReservedNetworks();
    assert forall k :: 0 <= k < 9 ==> bs[k] == EntryBlock(k);
    if k: nat :| k < 9 && EntryHas(k, address) {
      assert bs[k].Has(address);
    }
    if SomeHas(bs, address) {
      var k :| 0 <= k < |bs| && bs[k].Has(address);
      assert EntryHas(k, address);
    }
  }

  predicate EntryHas(k: nat, address: int) {
    EntryBlock(k).Has(address)
  }

  predicate SomeEntryHas(address: int) {
    || EntryHas(0, address) || EntryHas(1, address) || EntryHas(2, address) || EntryHas(3, address)
    || EntryHas(4, address) || EntryHas(5, address) || EntryHas(6, address) || EntryHas(7, address)
    || EntryHas(8, address)
  }

  lemma AnyOfNine(address: int)
    ensures SomeEntryHas(address) <==> exists k: nat :: k < 9 && EntryHas(k, address)
  {
    hide EntryHas;
  }

  lemma EntriesMean(address: int)
    ensures IsReserved(address) <==> SomeEntryHas(address)
  {
    hide EntryBlock;
    EntryNumbers();
  }

  /** First address and size of each entry. */
  lemma EntryNumbers()
    ensures EntryBlock(0).base == 0 && EntryBlock(0).Size() == 16777216
    ensures EntryBlock(1).base == 10 * 16777216 && EntryBlock(1).Size() == 16777216
    ensures EntryBlock(2).base == 100 * 16777216 + 64 * 65536 && EntryBlock(2).Size() == 64 * 65536
    ensures EntryBlock(3).base == 127 * 16777216 && EntryBlock(3).Size() == 16777216
    ensures EntryBlock(4).base == 169 * 16777216 + 254 * 65536 && EntryBlock(4).Size() == 65536
    ensures EntryBlock(5).base == 172 * 16777216 + 16 * 65536 && EntryBlock(5).Size() == 16 * 65536
    ensures EntryBlock(6).base == 192 * 16777216 + 168 * 65536 && EntryBlock(6).Size() == 65536
    ensures EntryBlock(7).base == 224 * 16777216 && EntryBlock(7).Size() == 16 * 16777216
    ensures EntryBlock(8).base == 240 * 16777216 && EntryBlock(8).Size() == 16 * 16777216
  {
    Pow2Of32();
    assert Pow2(28) == 268435456;
    assert Pow2(22) == 4194304;
    assert Pow2(20) == 1048576;
  }
}
