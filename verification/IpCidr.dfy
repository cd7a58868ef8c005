/** Address blocks in CIDR notation (src/core/network/ip-cidr.ts). */
module IpCidr {
  import opened Arith
  import opened JsText
  import opened Digits
  import opened IpAddress
  import opened IpRoundTrip

  datatype Cidr = Cidr(version: nat, prefixLength: nat, network: nat)

  function BitLength(version: nat): nat {
    if version == 4 then 32 else 128
  }

  /** The number of addresses in a block, two to the number of host bits. */
  function HostSize(version: nat, prefixLength: nat): (h: nat)
    requires prefixLength <= BitLength(version)
    ensures h >= 1
  {
    PowerPositive(2, BitLength(version) - prefixLength);
    Power(2, BitLength(version) - prefixLength)
  }

  lemma {:induction false} PowerPositive(base: nat, k: nat)
    requires base >= 1
    ensures Power(base, k) >= 1
  {
    if k > 0 {
      PowerPositive(base, k - 1);
      PositiveProduct(base, Power(base, k - 1));
    }
  }

  /** Shifting right and left again by the host bits clears them. */
  function ClearHostBits(value: nat, hostSize: nat): nat
    requires hostSize >= 1
  {
    value / hostSize * hostSize
  }

  function CidrOf(text: string): Option<Cidr> {
    var parts := Split(text, '/');
    if |parts| != 2 || parts[0] == "" then None
    else match AddressOf(parts[0])
      case None => None
      case Some(address) =>
        if !IsShortDecimal(parts[1]) || ShortDecimal(parts[1]) > BitLength(address.version) then None
        else
          var prefixLength := ShortDecimal(parts[1]);
          Some(Cidr(address.version, prefixLength,
                    ClearHostBits(address.value, HostSize(address.version, prefixLength))))
  }

  /** What the parser guarantees of a block: a legal prefix length and no host bit set. */
  ghost predicate WellFormed(c: Cidr) {
    && (c.version == 4 || c.version == 6)
    && c.prefixLength <= BitLength(c.version)
    && c.network % HostSize(c.version, c.prefixLength) == 0
    && c.network + HostSize(c.version, c.prefixLength) <= Power(2, BitLength(c.version))
  }

  predicate IsIpInCidr(address: Address, cidr: Cidr)
    requires cidr.prefixLength <= BitLength(cidr.version)
  {
    address.version == cidr.version
    && ClearHostBits(address.value, HostSize(cidr.version, cidr.prefixLength)) == cidr.network
  }

  lemma ClearedIsMultiple(value: nat, h: nat)
    requires h >= 1
    ensures ClearHostBits(value, h) % h == 0
    ensures ClearHostBits(value, h) <= value < ClearHostBits(value, h) + h
  {
    LowDigit(value / h, h, 0);
    assert value == value / h * h + value % h;
  }

  lemma BlockIndex(value: nat, network: nat, h: nat)
    requires h >= 1 && network % h == 0
    ensures ClearHostBits(value, h) == network <==> network <= value < network + h
  {
    ClearedIsMultiple(value, h);
    assert network == network / h * h;
    if network <= value < network + h {
      LowDigit(network / h, h, value - network);
    }
  }

  lemma BlockFits(value: nat, h: nat, k: nat)
    requires h >= 1 && value < h * k
    ensures ClearHostBits(value, h) + h <= h * k
  {
    DivBelow(value, h, k);
    MulMono(value / h + 1, k, h);
  }

  lemma ParsedIsWellFormed(text: string)
    requires CidrOf(text).Some?
    ensures WellFormed(CidrOf(text).value)
    ensures var c := CidrOf(text).value;
            exists address: Address :: AddressOf(Split(text, '/')[0]) == Some(address) && IsIpInCidr(address, c)
  {
    var parts := Split(text, '/');
    var address := AddressOf(parts[0]).value;
    ValueBound(parts[0], address);
    BlockOfValue(address.value, address.version, ShortDecimal(parts[1]));
  }

  lemma BlockOfValue(value: nat, version: nat, prefixLength: nat)
    requires version == 4 || version == 6
    requires prefixLength <= BitLength(version) && value < Power(2, BitLength(version))
    ensures WellFormed(Cidr(version, prefixLength, ClearHostBits(value, HostSize(version, prefixLength))))
  {
    var bits := BitLength(version);
    var h, k := HostSize(version, prefixLength), Power(2, prefixLength);
    ClearedIsMultiple(value, h);
    PowerSplit(2, bits - prefixLength, prefixLength);
    assert Power(2, bits) == h * k;
    BlockFits(value, h, k);
  }

  /** Membership is an interval: the network address and the addresses that follow it. */
  lemma MembershipIsInterval(address: Address, c: Cidr)
    requires WellFormed(c)
    ensures IsIpInCidr(address, c) <==>
            address.version == c.version && c.network <= address.value < c.network + HostSize(c.version, c.prefixLength)
  {
    BlockIndex(address.value, c.network, HostSize(c.version, c.prefixLength));
  }

  lemma DivDiv(v: nat, h: nat, k: nat)
    requires h >= 1 && k >= 1
    ensures h * k >= 1 && v / (h * k) == (v / h) / k
  {
    PositiveProduct(h, k);
    var q, r := v / h, v % h;
    var q2, r2 := q / k, q % k;
    Euclid(v, h);
    Euclid(q, k);
    Regroup(q2, k, r2, h);
    DigitBound(r2, k, h, r);
    LowDigit(q2, h * k, r2 * h + r);
  }

  lemma Regroup(a: nat, k: nat, b: nat, h: nat)
    ensures (a * k + b) * h == a * (h * k) + b * h
  {
    MulAssoc(a, k, h);
    Distribute(a * k, b, h);
    Commute(h, k);
  }

  lemma Distribute(a: nat, b: nat, m: nat)
    ensures (a + b) * m == a * m + b * m
  {
  }

  lemma Commute(a: nat, b: nat)
    ensures a * b == b * a
  {
  }

  lemma SharedBlock(a: nat, b: nat, h: nat, k: nat)
    requires h >= 1 && k >= 1 && ClearHostBits(a, h) == ClearHostBits(b, h)
    ensures h * k >= 1 && ClearHostBits(a, h * k) == ClearHostBits(b, h * k)
  {
    DivDiv(a, h, k);
    DivDiv(b, h, k);
    LowDigit(a / h, h, 0);
    LowDigit(b / h, h, 0);
  }

  /** Two blocks of one version are nested or disjoint. */
  lemma NestedOrDisjoint(inner: Cidr, outer: Cidr)
    requires WellFormed(inner) && WellFormed(outer)
    requires inner.version == outer.version && inner.prefixLength >= outer.prefixLength
    ensures || (forall a: Address :: IsIpInCidr(a, inner) ==> IsIpInCidr(a, outer))
            || (forall a: Address :: !(IsIpInCidr(a, inner) && IsIpInCidr(a, outer)))
  {
    if shared: Address :| IsIpInCidr(shared, inner) && IsIpInCidr(shared, outer) {
      var bits := BitLength(inner.version);
      var h, k := HostSize(inner.version, inner.prefixLength), Power(2, inner.prefixLength - outer.prefixLength);
      PowerSplit(2, bits - inner.prefixLength, inner.prefixLength - outer.prefixLength);
      PowerPositive(2, inner.prefixLength - outer.prefixLength);
      forall a: Address | IsIpInCidr(a, inner)
        ensures IsIpInCidr(a, outer)
      {
        SharedBlock(a.value, shared.value, h, k);
      }
    }
  }
}

/** The client address behind trusted proxies (src/http/trusted-proxy-client-address.ts). */
module TrustedProxy {
  import opened JsText
  import opened Digits
  import opened IpAddress
  import opened IpCidr

  const MAX_X_FORWARDED_FOR_LENGTH := 4_096
  const MAX_FORWARDED_HOPS := 32

  ghost predicate Networks(networks: seq<Cidr>) {
    forall i :: 0 <= i < |networks| ==> networks[i].prefixLength <= BitLength(networks[i].version)
  }

  /** One hop of the chain. */
  function ReadHop(part: string): Option<Address> {
    AddressOf(Trim(part))
  }

  /** All parts, if each of them can be read. */
  function ReadAll(read: string -> Option<Address>, parts: seq<string>): (r: Option<seq<Address>>)
    ensures r.Some? <==> forall i :: 0 <= i < |parts| ==> read(parts[i]).Some?
    ensures r.Some? ==> |r.value| == |parts| && forall i :: 0 <= i < |parts| ==> read(parts[i]) == Some(r.value[i])
  {
    if parts == [] then Some([])
    else
      var front, last := ReadAll(read, parts[..|parts| - 1]), read(parts[|parts| - 1]);
      if front.Some? && last.Some? then Some(front.value + [last.value])
      else
        assert forall i :: 0 <= i < |parts| - 1 ==> parts[..|parts| - 1][i] == parts[i];
        None
  }

  predicate WithinCaps(value: string) {
    0 < |value| <= MAX_X_FORWARDED_FOR_LENGTH && |Split(value, ',')| <= MAX_FORWARDED_HOPS
  }

  function ForwardedChain(value: Option<string>): Option<seq<Address>> {
    if value.Some? && WithinCaps(value.value) then ReadAll(ReadHop, Split(value.value, ',')) else None
  }

  method ParseForwardedChain(value: Option<string>) returns (r: Option<seq<Address>>)
    ensures r == ForwardedChain(value)
  {
    if value.None? || |value.value| == 0 || |value.value| > MAX_X_FORWARDED_FOR_LENGTH {
      return None;
    }
    var parts := Split(value.value, ',');
    if |parts| == 0 || |parts| > MAX_FORWARDED_HOPS {
      return None;
    }
    r := ReadHops(parts);
  }

  method ReadHops(parts: seq<string>) returns (r: Option<seq<Address>>)
    ensures r == ReadAll(ReadHop, parts)
  {
    var addresses: seq<Address> := [];
    for index := 0 to |parts|
      invariant ReadAll(ReadHop, parts[..index]) == Some(addresses)
    {
      assert parts[..index + 1][..index] == parts[..index];
      var address := ParseIpAddress(Trim(parts[index]));
      assert ReadHop(parts[index]) == address;
      if address.None? {
        return None;
      }
      addresses := addresses + [address.value];
    }
    assert parts[..|parts|] == parts;
    return Some(addresses);
  }

  predicate IsTrusted(networks: seq<Cidr>, address: Address)
    requires Networks(networks)
  {
    exists i :: 0 <= i < |networks| && IsIpInCidr(address, networks[i])
  }

  /** The client is the hop `k`: untrusted, with only trusted hops to its right; or the
      leftmost hop when all are trusted. */
  ghost predicate IsClientHop(networks: seq<Cidr>, hops: seq<Address>, k: nat)
    requires Networks(networks)
  {
    && k < |hops|
    && (forall i :: k < i < |hops| ==> IsTrusted(networks, hops[i]))
    && (!IsTrusted(networks, hops[k]) || k == 0)
  }

  function ClientHop(networks: seq<Cidr>, hops: seq<Address>): (k: nat)
    requires Networks(networks) && hops != []
    ensures IsClientHop(networks, hops, k)
  {
    var last := |hops| - 1;
    if last == 0 || !IsTrusted(networks, hops[last]) then last
    else
      var k := ClientHop(networks, hops[..last]);
      assert forall i :: k < i < last ==> IsTrusted(networks, hops[..last][i]);
      k
  }

  /** It is the hop that a walk from the right stops at: the first that is in none of the blocks, or the
      leftmost. */
  lemma ClientHopMeans(networks: seq<Cidr>, hops: seq<Address>, k: nat)
    requires Networks(networks)
    ensures IsClientHop(networks, hops, k) <==>
            && k < |hops|
            && (forall i :: k < i < |hops| ==> IsTrusted(networks, hops[i]))
            && (k > 0 ==> !IsTrusted(networks, hops[k]))
  {
  }

  lemma ClientHopUnique(networks: seq<Cidr>, hops: seq<Address>, j: nat, k: nat)
    requires Networks(networks) && IsClientHop(networks, hops, j) && IsClientHop(networks, hops, k)
    ensures j == k
  {
  }

  function Resolve(networks: seq<Cidr>, remoteAddress: Option<string>, xForwardedFor: Option<string>): Option<string>
    requires Networks(networks)
  {
    match remoteAddress
    case None => None
    case Some(remote) =>
      match AddressOf(remote)
      case None => Some(remote)
      case Some(peer) =>
        if networks == [] || !IsTrusted(networks, peer) then Some(peer.canonical)
        else Some(Chosen(networks, peer, ForwardedChain(xForwardedFor)).canonical)
  }

  /** The client behind a trusted peer: from the chain if there is one, else the peer. */
  function Chosen(networks: seq<Cidr>, peer: Address, chain: Option<seq<Address>>): Address
    requires Networks(networks)
  {
    if chain.None? || chain.value == [] then peer else chain.value[ClientHop(networks, chain.value)]
  }

  method ResolveClientAddress(networks: seq<Cidr>, remoteAddress: Option<string>, xForwardedFor: Option<string>)
    returns (r: Option<string>)
    requires Networks(networks)
    ensures r == Resolve(networks, remoteAddress, xForwardedFor)
  {
    if remoteAddress.None? {
      return None;
    }
    var peer := ParseIpAddress(remoteAddress.value);
    if peer.None? {
      return remoteAddress;
    }
    if |networks| == 0 || !IsTrusted(networks, peer.value) {
      return Some(peer.value.canonical);
    }
    var forwarded := ParseForwardedChain(xForwardedFor);
    if forwarded.None? || |forwarded.value| == 0 {
      return Some(peer.value.canonical);
    }
    var hop := WalkHops(networks, forwarded.value);
    return Some(hop.canonical);
  }

  /** The right-to-left walk. */
  method WalkHops(networks: seq<Cidr>, hops: seq<Address>) returns (hop: Address)
    requires Networks(networks) && hops != []
    ensures hop == hops[ClientHop(networks, hops)]
  {
    var index := |hops| - 1;
    while index >= 0
      invariant -1 <= index < |hops|
      invariant forall i :: index < i < |hops| ==> IsTrusted(networks, hops[i])
    {
      if !IsTrusted(networks, hops[index]) {
        ClientHopUnique(networks, hops, index, ClientHop(networks, hops));
        return hops[index];
      }
      index := index - 1;
    }
    ClientHopUnique(networks, hops, 0, ClientHop(networks, hops));
    return hops[0];
  }

  /** The header says nothing unless the peer is trusted: an untrusted peer is the client itself, in
      canonical form; so is a trusted one without a readable header; a peer address that cannot be read
      is answered as it is, and no address with none. */
  lemma HeaderIgnored(networks: seq<Cidr>, remote: string, header: Option<string>)
    requires Networks(networks)
    ensures Resolve(networks, None, header) == None
    ensures AddressOf(remote).None? ==> Resolve(networks, Some(remote), header) == Some(remote)
    ensures AddressOf(remote).Some? && !IsTrusted(networks, AddressOf(remote).value) ==>
              Resolve(networks, Some(remote), header) == Some(AddressOf(remote).value.canonical)
    ensures AddressOf(remote).Some? && (header.None? || ForwardedChain(header).None?) ==>
              Resolve(networks, Some(remote), header) == Some(AddressOf(remote).value.canonical)
  {
  }

  /** An address is trusted if and only if it lies in one of the blocks. */
  lemma TrustedExactly(networks: seq<Cidr>, address: Address)
    requires Networks(networks) && forall i :: 0 <= i < |networks| ==> WellFormed(networks[i])
    ensures IsTrusted(networks, address) <==>
            exists i :: 0 <= i < |networks| && Inside(address, networks[i])
  {
    forall i | 0 <= i < |networks|
      ensures Inside(address, networks[i]) <==> IsIpInCidr(address, networks[i])
    {
      MembershipIsInterval(address, networks[i]);
    }
  }

  /** From the network address on, two to the number of host bits of addresses of one version. */
  predicate Inside(address: Address, c: Cidr)
    requires c.prefixLength <= BitLength(c.version)
  {
    && address.version == c.version
    && c.network <= address.value < c.network + Power(2, (if c.version == 4 then 32 else 128) - c.prefixLength)
  }

  /** A header is read if and only if it has 1 to 4096 characters and at most 32 parts, and each part,
      trimmed, is an address; then those addresses are the hops. */
  lemma ChainExact(value: string, hops: seq<Address>)
    ensures ForwardedChain(None) == None
    ensures ForwardedChain(Some(value)) == Some(hops) <==>
            && 1 <= |value| <= 4_096 && |hops| == |Split(value, ',')| <= 32
            && forall i :: 0 <= i < |hops| ==> AddressOf(Trim(Split(value, ',')[i])) == Some(hops[i])
  {
    var parts := Split(value, ',');
    assert forall i :: 0 <= i < |parts| ==> ReadHop(parts[i]) == AddressOf(Trim(parts[i]));
    if |hops| == |parts| && forall i :: 0 <= i < |hops| ==> AddressOf(Trim(parts[i])) == Some(hops[i]) {
      SameElements(ReadHop, parts, ReadAll(ReadHop, parts).value, hops);
    }
  }

  /** From a trusted peer with a readable chain, the answer is the rightmost untrusted hop, and
      the peer and everything to the right of that hop are trusted. */
  lemma RightmostUntrusted(networks: seq<Cidr>, remote: string, value: string)
    requires Networks(networks) && AddressOf(remote).Some? && IsTrusted(networks, AddressOf(remote).value)
    requires ForwardedChain(Some(value)).Some?
    ensures var hops := ForwardedChain(Some(value)).value;
            exists k: nat ::
              IsClientHop(networks, hops, k) && Resolve(networks, Some(remote), Some(value)) == Some(hops[k].canonical)
  {
    var peer, hops := AddressOf(remote).value, ForwardedChain(Some(value)).value;
    BehindTrustedPeer(networks, remote, value);
    ChainHasHops(value);
    var k := ClientHop(networks, hops);
    assert Chosen(networks, peer, Some(hops)) == hops[k];
    assert IsClientHop(networks, hops, k);
  }

  lemma ChainHasHops(value: string)
    requires ForwardedChain(Some(value)).Some?
    ensures ForwardedChain(Some(value)).value != []
  {
  }

  lemma ClientHopOfSuffix(networks: seq<Cidr>, front: seq<Address>, hops: seq<Address>)
    requires Networks(networks) && exists i :: 0 <= i < |hops| && !IsTrusted(networks, hops[i])
    ensures (front + hops)[ClientHop(networks, front + hops)] == hops[ClientHop(networks, hops)]
  {
    var k := ClientHop(networks, hops);
    var i :| 0 <= i < |hops| && !IsTrusted(networks, hops[i]);
    assert i <= k;
    assert !IsTrusted(networks, hops[k]);
    forall j | |front| + k < j < |front + hops|
      ensures IsTrusted(networks, (front + hops)[j])
    {
      assert (front + hops)[j] == hops[j - |front|];
    }
    ClientHopUnique(networks, front + hops, |front| + k, ClientHop(networks, front + hops));
  }

  /** What a client writes to the left of the chain cannot choose the answer: once the chain
      holds an untrusted hop, prepending text leaves the answer as it was when the longer header
      is still readable and within the caps, and otherwise makes it the peer itself. */
  lemma PrependingHops(networks: seq<Cidr>, remote: string, prefix: string, value: string)
    requires Networks(networks) && networks != []
    requires AddressOf(remote).Some? && IsTrusted(networks, AddressOf(remote).value)
    requires ForwardedChain(Some(value)).Some?
    requires var hops := ForwardedChain(Some(value)).value;
             exists i :: 0 <= i < |hops| && !IsTrusted(networks, hops[i])
    ensures var longer := prefix + [','] + value;
            Resolve(networks, Some(remote), Some(longer)) ==
              if WithinCaps(longer) && ReadAll(ReadHop, Split(prefix, ',')).Some? then
                Resolve(networks, Some(remote), Some(value))
              else Some(AddressOf(remote).value.canonical)
  {
    var front, back := Split(prefix, ','), Split(value, ',');
    SplitAtSeparator(prefix, value, ',');
    ReadAllConcat(ReadHop, front, back);
    var peer := AddressOf(remote).value;
    BehindTrustedPeer(networks, remote, value);
    BehindTrustedPeer(networks, remote, prefix + [','] + value);
    if ReadAll(ReadHop, front).Some? {
      ChosenFromSuffix(networks, peer, ReadAll(ReadHop, front).value, ReadAll(ReadHop, back).value);
    }
  }

  lemma BehindTrustedPeer(networks: seq<Cidr>, remote: string, value: string)
    requires Networks(networks) && AddressOf(remote).Some? && IsTrusted(networks, AddressOf(remote).value)
    ensures Resolve(networks, Some(remote), Some(value)) ==
            Some(Chosen(networks, AddressOf(remote).value, ForwardedChain(Some(value))).canonical)
  {
  }

  lemma ChosenFromSuffix(networks: seq<Cidr>, peer: Address, front: seq<Address>, hops: seq<Address>)
    requires Networks(networks) && exists i :: 0 <= i < |hops| && !IsTrusted(networks, hops[i])
    ensures Chosen(networks, peer, Some(front + hops)) == Chosen(networks, peer, Some(hops))
  {
    ClientHopOfSuffix(networks, front, hops);
  }

  lemma ReadAllConcat(read: string -> Option<Address>, front: seq<string>, back: seq<string>)
    ensures var a, b, all := ReadAll(read, front), ReadAll(read, back), ReadAll(read, front + back);
            all == if a.Some? && b.Some? then Some(a.value + b.value) else None
  {
    if ReadAll(read, front).Some? && ReadAll(read, back).Some? {
      BothAreRead(read, front, back);
    } else if ReadAll(read, front + back).Some? {
      EachIsRead(read, front, back);
    }
  }

  lemma BothAreRead(read: string -> Option<Address>, front: seq<string>, back: seq<string>)
    requires ReadAll(read, front).Some? && ReadAll(read, back).Some?
    ensures ReadAll(read, front + back) == Some(ReadAll(read, front).value + ReadAll(read, back).value)
  {
    var parts, both := front + back, ReadAll(read, front).value + ReadAll(read, back).value;
    forall i | 0 <= i < |parts|
      ensures read(parts[i]) == Some(both[i])
    {
      if i < |front| {
        assert parts[i] == front[i];
      } else {
        assert parts[i] == back[i - |front|];
      }
    }
    SameElements(read, parts, ReadAll(read, parts).value, both);
  }

  lemma EachIsRead(read: string -> Option<Address>, front: seq<string>, back: seq<string>)
    requires ReadAll(read, front + back).Some?
    ensures ReadAll(read, front).Some? && ReadAll(read, back).Some?
  {
    var parts := front + back;
    assert forall i :: 0 <= i < |front| ==> parts[i] == front[i];
    assert forall i :: 0 <= i < |back| ==> parts[|front| + i] == back[i];
  }

  lemma SameElements(read: string -> Option<Address>, parts: seq<string>, x: seq<Address>, y: seq<Address>)
    requires |x| == |y| == |parts|
    requires forall i :: 0 <= i < |parts| ==> read(parts[i]) == Some(x[i]) && read(parts[i]) == Some(y[i])
    ensures x == y
  {
    forall i | 0 <= i < |parts|
      ensures x[i] == y[i]
    {
      assert read(parts[i]) == Some(x[i]);
    }
  }
}
