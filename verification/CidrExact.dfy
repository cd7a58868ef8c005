/** Exactly which texts are address blocks, and which ones (src/core/network/ip-cidr.ts). */
module CidrExact {
  import opened Arith
  import opened JsText
  import opened Digits
  import opened IpAddress
  import opened IpRoundTrip
  import opened IpExact
  import opened IpCidr

  /** Two to a number of host bits. */
  function Size(hostBits: nat): (h: nat)
    ensures h >= 1 && h == Power(2, hostBits)
  {
    PowerPositive(2, hostBits);
    Power(2, hostBits)
  }

  /** The block that these numbers make of an address. */
  ghost predicate IsBlockOf(address: Address, bits: nat, c: Cidr) {
    && c.version == address.version && c.prefixLength <= bits
    && c.network == address.value - address.value % Size(bits - c.prefixLength)
  }

  /** The text is an address that is read so, a slash, and a prefix length without leading zeros that
      fits into so many bits; the block has the address's version and the network that is left of the
      address when the host bits are cleared. */
  ghost predicate WritesBlock(text: string, front: string, address: Address, bits: nat, c: Cidr) {
    && text == front + "/" + ToText(c.prefixLength, 10) && '/' !in front && AddressOf(front) == Some(address)
    && IsBlockOf(address, bits, c)
  }

  function Bits(version: nat): (bits: nat)
    ensures bits == BitLength(version)
  {
    if version == 4 then 32 else 128
  }

  /** A text is a block if and only if it writes an address and a prefix length that fits the address,
      and the block is the one so written. */
  lemma BlockExact(text: string, c: Cidr)
    ensures CidrOf(text) == Some(c) <==>
            exists front: string, address: Address :: WritesBlock(text, front, address, Bits(address.version), c)
  {
    if CidrOf(text) == Some(c) {
      var front, address := BlockReads(text, c);
    }
    if front: string, address: Address :| WritesBlock(text, front, address, Bits(address.version), c) {
      BlockWritten(text, front, address, c);
    }
  }

  lemma ClearedValue(value: nat, h: nat)
    requires h >= 1
    ensures ClearHostBits(value, h) == value - value % h
  {
    Euclid(value, h);
  }

  lemma TwoParts(text: string, front: string, back: string)
    ensures Split(text, '/') == [front, back] <==> text == front + "/" + back && '/' !in front && '/' !in back
  {
    SplitIsExact(text, '/', [front, back]);
    assert ['/'] == "/";
    assert [front, back][1..] == [back];
    assert Join([front, back], '/') == front + "/" + back;
    assert [front, back][0] == front && [front, back][1] == back;
  }

  /** The block of an address at a prefix length that fits it. */
  function BlockAt(address: Address, prefixLength: nat): Cidr
    requires prefixLength <= BitLength(address.version)
  {
    Cidr(address.version, prefixLength, ClearHostBits(address.value, HostSize(address.version, prefixLength)))
  }

  lemma BlockAtNetwork(address: Address, prefixLength: nat, bits: nat)
    requires prefixLength <= bits == BitLength(address.version)
    ensures BlockAt(address, prefixLength).network == address.value - address.value % Size(bits - prefixLength)
  {
    ClearedValue(address.value, HostSize(address.version, prefixLength));
  }

  lemma BlockOfParts(text: string, front: string, back: string, address: Address)
    requires Split(text, '/') == [front, back] && front != "" && AddressOf(front) == Some(address)
    ensures CidrOf(text) == if IsShortDecimal(back) && ShortDecimal(back) <= BitLength(address.version)
                            then Some(BlockAt(address, ShortDecimal(back))) else None
  {
  }

  lemma BlockHasParts(text: string) returns (front: string, back: string, address: Address)
    requires CidrOf(text).Some?
    ensures Split(text, '/') == [front, back] && front != "" && AddressOf(front) == Some(address)
  {
    var parts := Split(text, '/');
    front, back, address := parts[0], parts[1], AddressOf(parts[0]).value;
  }

  lemma BlockAtExact(address: Address, c: Cidr, bits: nat)
    requires bits == BitLength(address.version)
    ensures IsBlockOf(address, bits, c) <==> c.prefixLength <= bits && c == BlockAt(address, c.prefixLength)
  {
    if c.prefixLength <= bits {
      BlockAtNetwork(address, c.prefixLength, bits);
    }
  }

  lemma BlockReads(text: string, c: Cidr) returns (front: string, address: Address)
    requires CidrOf(text) == Some(c)
    ensures WritesBlock(text, front, address, Bits(address.version), c)
  {
    var back;
    front, back, address := BlockHasParts(text);
    BlockOfParts(text, front, back, address);
    TwoParts(text, front, back);
    ShortDecimalExact(back, c.prefixLength);
    BlockAtExact(address, c, Bits(address.version));
  }

  lemma BlockWritten(text: string, front: string, address: Address, c: Cidr)
    requires WritesBlock(text, front, address, Bits(address.version), c)
    ensures CidrOf(text) == Some(c)
  {
    var back := ToText(c.prefixLength, 10);
    NoSlash(c.prefixLength);
    TwoParts(text, front, back);
    NotEmptyAddress(front);
    BlockOfParts(text, front, back, address);
    FitsThreeDigits(address.version, c.prefixLength);
    ShortDecimalExact(back, c.prefixLength);
    BlockAtExact(address, c, Bits(address.version));
  }

  lemma FitsThreeDigits(version: nat, prefixLength: nat)
    requires prefixLength <= BitLength(version)
    ensures prefixLength <= 999
  {
  }

  lemma NoSlash(n: nat)
    ensures '/' !in ToText(n, 10)
  {
    forall i | 0 <= i < |ToText(n, 10)|
      ensures ToText(n, 10)[i] != '/'
    {
      assert DigitValue(ToText(n, 10)[i]) < 10;
    }
  }

  lemma NotEmptyAddress(text: string)
    requires AddressOf(text).Some?
    ensures text != ""
  {
    if text == "" {
      SplitFree("", '.');
    }
  }

  /** A block of a parsed text holds exactly the addresses of its version from its network on, two to
      the number of host bits of them, all of them within the range of the version. */
  lemma BlockMembers(text: string, c: Cidr, address: Address, bits: nat)
    requires CidrOf(text) == Some(c) && bits == Bits(c.version)
    ensures c.prefixLength <= bits
    ensures IsIpInCidr(address, c) <==>
            address.version == c.version && c.network <= address.value < c.network + Size(bits - c.prefixLength)
    ensures c.network + Size(bits - c.prefixLength) <= Size(bits)
  {
    ParsedIsWellFormed(text);
    SizesAgree(c, bits);
    MembershipIsInterval(address, c);
  }

  lemma SizesAgree(c: Cidr, bits: nat)
    requires c.prefixLength <= bits == BitLength(c.version)
    ensures HostSize(c.version, c.prefixLength) == Size(bits - c.prefixLength)
    ensures Power(2, BitLength(c.version)) == Size(bits)
  {
  }
}
