/** The IPv4 and IPv6 text parser and its canonical printer (src/core/network/ip-cidr.ts).
    Functions give the meaning of a text; the methods are the loops of the source, proved
    equal to them. */
module IpAddress {
  import opened Arith
  import opened JsText
  import opened Digits

  /** version is 4 or 6; canonical is the printed form. */
  datatype Address = Address(version: nat, value: nat, canonical: string)

  // ---- positional values ----

  function Fold(groups: seq<nat>, radix: nat): nat {
    if groups == [] then 0
    else Fold(groups[..|groups| - 1], radix) * radix + groups[|groups| - 1]
  }

  predicate Below(groups: seq<nat>, radix: nat) {
    forall i :: 0 <= i < |groups| ==> groups[i] < radix
  }

  lemma {:induction false} FoldBound(groups: seq<nat>, radix: nat)
    requires radix >= 1 && Below(groups, radix)
    ensures Fold(groups, radix) < Power(radix, |groups|)
  {
    if groups != [] {
      var front := groups[..|groups| - 1];
      FoldBound(front, radix);
      DigitBound(Fold(front, radix), Power(radix, |front|), radix, groups[|groups| - 1]);
    }
  }

  lemma DigitBound(high: nat, bound: nat, radix: nat, low: nat)
    requires high < bound && low < radix
    ensures high * radix + low < radix * bound
  {
    MulMono(high + 1, bound, radix);
  }

  /** Two digit strings of one length have the same value only if they are the same. */
  lemma {:induction false} FoldInjective(a: seq<nat>, b: seq<nat>, radix: nat)
    requires |a| == |b| && Below(a, radix) && Below(b, radix)
    requires Fold(a, radix) == Fold(b, radix)
    ensures a == b
  {
    if a != [] {
      var n := |a| - 1;
      LowDigit(Fold(a[..n], radix), radix, a[n]);
      LowDigit(Fold(b[..n], radix), radix, b[n]);
      FoldInjective(a[..n], b[..n], radix);
      assert a == a[..n] + [a[n]] && b == b[..n] + [b[n]];
    }
  }

  lemma Fold4(a: nat, b: nat, c: nat, d: nat, radix: nat)
    ensures Fold([a, b, c, d], radix) == ((a * radix + b) * radix + c) * radix + d
  {
    assert [a][..0] == [] && [a, b][..1] == [a] && [a, b, c][..2] == [a, b] && [a, b, c, d][..3] == [a, b, c];
    assert Fold([a], radix) == a;
    assert Fold([a, b], radix) == a * radix + b;
    assert Fold([a, b, c], radix) == (a * radix + b) * radix + c;
  }

  // ---- IPv4 ----

  /** Matches ^(0|[1-9][0-9]{0,2})$ . */
  predicate IsShortDecimal(s: string) {
    s == "0" || (1 <= |s| <= 3 && '1' <= s[0] <= '9' && forall i :: 0 <= i < |s| ==> IsDecimal(s[i]))
  }

  function ShortDecimal(s: string): (n: nat)
    requires IsShortDecimal(s)
  {
    FromText(s, 10)
  }

  function OctetOf(part: string): Option<nat> {
    if IsShortDecimal(part) && ShortDecimal(part) <= 255 then Some(ShortDecimal(part)) else None
  }

  predicate AllOctets(parts: seq<string>) {
    forall i :: 0 <= i < |parts| ==> OctetOf(parts[i]).Some?
  }

  function OctetsOf(parts: seq<string>): (octets: seq<nat>)
    requires AllOctets(parts)
    ensures |octets| == |parts| && Below(octets, 256)
  {
    seq(|parts|, i requires 0 <= i < |parts| => OctetOf(parts[i]).value)
  }

  function Render(groups: seq<nat>, base: nat): (tokens: seq<string>)
    requires 2 <= base <= 16
    ensures |tokens| == |groups|
  {
    seq(|groups|, i requires 0 <= i < |groups| => ToText(groups[i], base))
  }

  function Ipv4FromOctets(octets: seq<nat>): Address {
    Address(4, Fold(octets, 256), Join(Render(octets, 10), '.'))
  }

  function Ipv4(value: string): Option<Address> {
    var parts := Split(value, '.');
    if |parts| == 4 && AllOctets(parts) then Some(Ipv4FromOctets(OctetsOf(parts))) else None
  }

  /** parseIpv4: both loops of the source; shifting by eight bits and or-ing in an octet is
      multiplication by 256 and addition. */
  method ParseIpv4(value: string) returns (r: Option<Address>)
    ensures r == Ipv4(value)
  {
    var parts := Split(value, '.');
    if |parts| != 4 {
      return None;
    }
    var octets: seq<nat> := [];
    for index := 0 to |parts|
      invariant |octets| == index && AllOctets(parts[..index]) && octets == OctetsOf(parts[..index])
    {
      var part := parts[index];
      assert parts[..index + 1] == parts[..index] + [part];
      if !IsShortDecimal(part) || ShortDecimal(part) > 255 {
        assert OctetOf(parts[index]).None?;
        return None;
      }
      octets := octets + [ShortDecimal(part)];
    }
    assert parts[..|parts|] == parts;
    var numeric: nat := 0;
    for index := 0 to |octets|
      invariant numeric == Fold(octets[..index], 256)
    {
      assert octets[..index + 1][..index] == octets[..index];
      numeric := numeric * 256 + octets[index];
    }
    assert octets[..|octets|] == octets;
    return Some(Address(4, numeric, Join(Render(octets, 10), '.')));
  }

  lemma OctetText(n: nat)
    requires n <= 255
    ensures OctetOf(ToText(n, 10)) == Some(n)
    ensures '.' !in ToText(n, 10) && ':' !in ToText(n, 10)
  {
    FromToText(n, 10);
    NoLeadingZero(n, 10);
    assert Power(10, 1) == 10 && Power(10, 2) == 100 && Power(10, 3) == 1000;
    TextLength(n, 10, 3);
  }

  /** Printing four octets and parsing the text gives the same address. */
  lemma Ipv4Prints(octets: seq<nat>)
    requires |octets| == 4 && Below(octets, 256)
    ensures Ipv4(Ipv4FromOctets(octets).canonical) == Some(Ipv4FromOctets(octets))
    ensures ':' !in Ipv4FromOctets(octets).canonical
  {
    var parts := Render(octets, 10);
    forall i | 0 <= i < 4
      ensures OctetOf(parts[i]) == Some(octets[i]) && '.' !in parts[i] && ':' !in parts[i]
    {
      OctetText(octets[i]);
    }
    SplitJoin(parts, '.');
    assert OctetsOf(parts) == octets;
    JoinMembers(parts, '.', ':');
  }

  // ---- IPv6 ----

  /** Matches ^[0-9A-Fa-f]{1,4}$ . */
  predicate IsHexToken(s: string) {
    1 <= |s| <= 4 && forall i :: 0 <= i < |s| ==> IsHex(s[i])
  }

  function HexToken(s: string): (n: nat)
    requires IsHexToken(s)
    ensures n < 65536
  {
    HexBound(s);
    FromText(s, 16)
  }

  lemma {:induction false} HexBound(s: string)
    requires Numeral(s, 16) && |s| <= 4
    ensures FromText(s, 16) < Power(16, |s|) <= 65536
  {
    if s != "" {
      HexBound(s[..|s| - 1]);
    }
    assert Power(16, 0) == 1 && Power(16, 1) == 16 && Power(16, 2) == 256 && Power(16, 3) == 4096
        && Power(16, 4) == 65536;
  }

  function Prepend(groups: seq<nat>, rest: Option<seq<nat>>): Option<seq<nat>> {
    match rest
    case None => None
    case Some(tail) => Some(groups + tail)
  }

  function Halves(address: Address): seq<nat> {
    [address.value / 65536 % 65536, address.value % 65536]
  }

  /** The inner function convert: hexadecimal tokens, and a dotted tail where it is allowed. */
  function GroupsOfTokens(tokens: seq<string>, allowIpv4AtEnd: bool): Option<seq<nat>> {
    if tokens == [] then Some([])
    else if '.' in tokens[0] then
      if !allowIpv4AtEnd || |tokens| > 1 then None
      else match Ipv4(tokens[0])
        case None => None
        case Some(address) => Some(Halves(address))
    else if !IsHexToken(tokens[0]) then None
    else Prepend([HexToken(tokens[0])], GroupsOfTokens(tokens[1..], allowIpv4AtEnd))
  }

  lemma PrependTwice(a: seq<nat>, b: seq<nat>, rest: Option<seq<nat>>)
    ensures Prepend(a, Prepend(b, rest)) == Prepend(a + b, rest)
  {
    if rest.Some? {
      assert a + (b + rest.value) == a + b + rest.value;
    }
  }

  lemma PrependEmpty(groups: seq<nat>, rest: Option<seq<nat>>)
    ensures Prepend([], rest) == rest
    ensures Prepend(groups, Some([])) == Some(groups)
  {
    assert groups + [] == groups;
    if rest.Some? {
      assert [] + rest.value == rest.value;
    }
  }

  method Convert(tokens: seq<string>, allowIpv4AtEnd: bool) returns (r: Option<seq<nat>>)
    ensures r == GroupsOfTokens(tokens, allowIpv4AtEnd)
  {
    var groups: seq<nat> := [];
    var index := 0;
    assert tokens[0..] == tokens;
    PrependEmpty([], GroupsOfTokens(tokens, allowIpv4AtEnd));
    while index < |tokens|
      invariant 0 <= index <= |tokens|
      invariant GroupsOfTokens(tokens, allowIpv4AtEnd)
                == Prepend(groups, GroupsOfTokens(tokens[index..], allowIpv4AtEnd))
    {
      var token := tokens[index];
      assert tokens[index..][0] == token && tokens[index..][1..] == tokens[index + 1..];
      if token == "" {
        return None;
      }
      if '.' in token {
        if !allowIpv4AtEnd || index != |tokens| - 1 {
          return None;
        }
        var ipv4 := ParseIpv4(token);
        if ipv4.None? {
          return None;
        }
        assert tokens[index..] == [token] && tokens[index + 1..] == [];
        PrependEmpty(Halves(ipv4.value), None);
        PrependTwice(groups, Halves(ipv4.value), Some([]));
        groups := groups + [ipv4.value.value / 65536 % 65536, ipv4.value.value % 65536];
        index := index + 1;
        continue;
      }
      if !IsHexToken(token) {
        return None;
      }
      PrependTwice(groups, [HexToken(token)], GroupsOfTokens(tokens[index + 1..], allowIpv4AtEnd));
      groups := groups + [HexToken(token)];
      index := index + 1;
    }
    PrependEmpty(groups, None);
    return Some(groups);
  }

  predicate PairAt(s: string, i: int) {
    0 <= i < |s| - 1 && s[i] == ':' && s[i + 1] == ':'
  }

  /** indexOf("::") from a position on; -1 when there is none. */
  function FirstPair(s: string, from: nat): (r: int)
    ensures r == -1 || (from <= r && PairAt(s, r))
    ensures forall i :: from <= i < (if r == -1 then |s| else r) ==> !PairAt(s, i)
    decreases |s| - from
  {
    if from >= |s| then -1 else if PairAt(s, from) then from else FirstPair(s, from + 1)
  }

  /** lastIndexOf("::") up to a position; -1 when there is none. */
  function LastPair(s: string, upto: nat): (r: int)
    ensures r == -1 || (r < upto && PairAt(s, r))
    ensures forall i :: r < i < upto ==> !PairAt(s, i)
  {
    if upto == 0 then -1 else if PairAt(s, upto - 1) then upto - 1 else LastPair(s, upto - 1)
  }

  function TokensOf(raw: string): seq<string> {
    if raw == "" then [] else Split(raw, ':')
  }

  function Zeros(n: nat): (z: seq<nat>)
    ensures |z| == n && forall i :: 0 <= i < n ==> z[i] == 0
  {
    seq(n, i => 0)
  }

  function Ipv6Groups(value: string): Option<seq<nat>> {
    if value == "" || '%' in value then None
    else
      var doubleColon := FirstPair(value, 0);
      if doubleColon == -1 then GroupsOfSides(false, value, "")
      else if doubleColon != LastPair(value, |value|) then None
      else GroupsOfSides(true, value[..doubleColon], value[doubleColon + 2..])
  }

  /** The groups of what stands on both sides of the compression; an IPv4 tail is allowed on the
      left when nothing stands on the right. */
  function GroupsOfSides(hasCompression: bool, left: string, right: string): Option<seq<nat>> {
    Assembled(hasCompression, GroupsOfTokens(TokensOf(left), TokensOf(right) == []),
              GroupsOfTokens(TokensOf(right), true))
  }

  /** Both sides of the compression, filled up to eight groups. */
  function Assembled(hasCompression: bool, left: Option<seq<nat>>, right: Option<seq<nat>>): Option<seq<nat>> {
    if left.None? || right.None? then None
    else
      var missing := 8 - (|left.value| + |right.value|);
      if hasCompression then
        if missing < 1 then None else Some(left.value + Zeros(missing) + right.value)
      else if missing == 0 then left else None
  }

  method ParseIpv6Groups(value: string) returns (r: Option<seq<nat>>)
    ensures r == Ipv6Groups(value)
  {
    if |value| == 0 || '%' in value {
      return None;
    }
    var doubleColon := FirstPair(value, 0);
    if doubleColon != -1 && doubleColon != LastPair(value, |value|) {
      return None;
    }
    var hasCompression := doubleColon != -1;
    var leftRaw := if hasCompression then value[..doubleColon] else value;
    var rightRaw := if hasCompression then value[doubleColon + 2..] else "";
    r := ConvertSides(hasCompression, leftRaw, rightRaw);
  }

  method ConvertSides(hasCompression: bool, leftRaw: string, rightRaw: string) returns (r: Option<seq<nat>>)
    ensures r == GroupsOfSides(hasCompression, leftRaw, rightRaw)
  {
    var left := TokensOf(leftRaw);
    var right := TokensOf(rightRaw);
    var leftGroups := Convert(left, |right| == 0);
    var rightGroups := Convert(right, true);
    if leftGroups.None? || rightGroups.None? {
      return None;
    }
    var explicitCount := |leftGroups.value| + |rightGroups.value|;
    if hasCompression {
      var missing := 8 - explicitCount;
      if missing < 1 {
        return None;
      }
      return Some(leftGroups.value + Zeros(missing) + rightGroups.value);
    }
    return if explicitCount == 8 then leftGroups else None;
  }

  lemma {:induction false} TokenGroupsBelow(tokens: seq<string>, allow: bool)
    requires GroupsOfTokens(tokens, allow).Some?
    ensures Below(GroupsOfTokens(tokens, allow).value, 65536)
  {
    if tokens != [] && '.' !in tokens[0] {
      TokenGroupsBelow(tokens[1..], allow);
    }
  }

  /** A text that parses denotes eight 16-bit groups. */
  lemma EightGroups(value: string)
    requires Ipv6Groups(value).Some?
    ensures |Ipv6Groups(value).value| == 8 && Below(Ipv6Groups(value).value, 65536)
  {
    var doubleColon := FirstPair(value, 0);
    if doubleColon == -1 {
      SidesEightGroups(false, value, "");
    } else {
      SidesEightGroups(true, value[..doubleColon], value[doubleColon + 2..]);
    }
  }

  lemma SidesEightGroups(hasCompression: bool, left: string, right: string)
    requires GroupsOfSides(hasCompression, left, right).Some? && (hasCompression || right == "")
    ensures var groups := GroupsOfSides(hasCompression, left, right).value; |groups| == 8 && Below(groups, 65536)
  {
    TokenGroupsBelow(TokensOf(left), TokensOf(right) == []);
    TokenGroupsBelow(TokensOf(right), true);
  }

  // ---- the canonical IPv6 text ----

  /** The number of consecutive zero groups that start at a position. */
  function ZeroRun(groups: seq<nat>, i: nat): (n: nat)
    ensures i <= |groups| ==> i + n <= |groups|
    ensures forall k :: i <= k < i + n && k < |groups| ==> groups[k] == 0
    decreases |groups| - i
  {
    if i >= |groups| || groups[i] != 0 then 0 else 1 + ZeroRun(groups, i + 1)
  }

  /** RFC 5952 section 4.2: the run that is shortened is a longest one, of two groups or more,
      and the first of these; start -1 stands for no such run. */
  ghost predicate IsFirstLongestRun(groups: seq<nat>, start: int, length: nat) {
    if start == -1 then
      length == 0 && forall i: nat :: i < |groups| ==> ZeroRun(groups, i) < 2
    else
      && 0 <= start < |groups| && length == ZeroRun(groups, start) && length >= 2
      && (forall i: nat :: i < |groups| ==> ZeroRun(groups, i) <= length)
      && (forall i: nat :: i < start ==> ZeroRun(groups, i) < length)
  }

  lemma FirstLongestRunUnique(groups: seq<nat>, s1: int, l1: nat, s2: int, l2: nat)
    requires IsFirstLongestRun(groups, s1, l1) && IsFirstLongestRun(groups, s2, l2)
    ensures s1 == s2 && l1 == l2
  {
    if s1 != -1 { assert ZeroRun(groups, s1) == l1; }
    if s2 != -1 { assert ZeroRun(groups, s2) == l2; }
  }

  /** The best run among those that start at a position or later. */
  function BestRun(groups: seq<nat>, from: nat): (int, nat)
    requires from <= |groups|
    decreases |groups| - from
  {
    if from == |groups| then (-1, 0)
    else
      var later := BestRun(groups, from + 1);
      var here := ZeroRun(groups, from);
      if here >= 2 && here >= later.1 then (from, here) else later
  }

  lemma {:induction false} BestRunFrom(groups: seq<nat>, from: nat)
    requires from <= |groups|
    ensures var (s, l) := BestRun(groups, from);
            if s == -1 then l == 0 && forall i: nat :: from <= i < |groups| ==> ZeroRun(groups, i) < 2
            else from <= s < |groups| && l == ZeroRun(groups, s) && l >= 2
                 && (forall i: nat :: from <= i < |groups| ==> ZeroRun(groups, i) <= l)
                 && (forall i: nat :: from <= i < s ==> ZeroRun(groups, i) < l)
    decreases |groups| - from
  {
    if from < |groups| {
      BestRunFrom(groups, from + 1);
    }
  }

  lemma BestRunIsFirstLongest(groups: seq<nat>)
    ensures IsFirstLongestRun(groups, BestRun(groups, 0).0, BestRun(groups, 0).1)
  {
    BestRunFrom(groups, 0);
  }

  function RenderCompressed(groups: seq<nat>, start: nat, length: nat): string
    requires start + length <= |groups|
  {
    Join(Render(groups[..start], 16), ':') + "::" + Join(Render(groups[start + length..], 16), ':')
  }

  function Canonical6(groups: seq<nat>): string {
    var (start, length) := BestRun(groups, 0);
    BestRunIsFirstLongest(groups);
    if start == -1 then Join(Render(groups, 16), ':') else RenderCompressed(groups, start, length)
  }

  lemma {:induction false} RunInside(groups: seq<nat>, index: nat, end: nat, i: nat)
    requires index <= i < end <= |groups|
    requires forall k :: index <= k < end ==> groups[k] == 0
    requires end == |groups| || groups[end] != 0
    ensures ZeroRun(groups, i) == end - i
    decreases end - i
  {
    if i + 1 < end {
      RunInside(groups, index, end, i + 1);
    } else {
      assert ZeroRun(groups, end) == 0;
    }
  }

  /** The best run among those that start before a position. */
  ghost predicate BestBefore(groups: seq<nat>, index: nat, start: int, length: nat) {
    if start == -1 then length == 0 && forall i: nat :: i < index ==> ZeroRun(groups, i) < 2
    else
      && 0 <= start < index && length == ZeroRun(groups, start) && length >= 2
      && (forall i: nat :: i < index ==> ZeroRun(groups, i) <= length)
      && (forall i: nat :: i < start ==> ZeroRun(groups, i) < length)
  }

  /** A whole run of zeros, taken if it is longer than the best before it. */
  lemma PassRun(groups: seq<nat>, index: nat, end: nat, start: int, length: nat)
    requires index <= end <= |groups| && BestBefore(groups, index, start, length)
    requires forall k :: index <= k < end ==> groups[k] == 0
    requires end == |groups| || groups[end] != 0
    ensures if end - index > length && end - index >= 2 then BestBefore(groups, end, index, end - index)
            else BestBefore(groups, end, start, length)
  {
    forall i: nat | index <= i < end
      ensures ZeroRun(groups, i) == end - i
    {
      RunInside(groups, index, end, i);
    }
  }

  lemma BestBeforeEnd(groups: seq<nat>, start: int, length: nat)
    requires BestBefore(groups, |groups|, start, length)
    ensures IsFirstLongestRun(groups, start, length) && (start, length) == BestRun(groups, 0)
  {
    BestRunIsFirstLongest(groups);
    FirstLongestRunUnique(groups, start, length, BestRun(groups, 0).0, BestRun(groups, 0).1);
  }

  /** canonicalizeIpv6: the scan over maximal zero runs finds the first longest one. */
  method CanonicalizeIpv6(groups: seq<nat>) returns (text: string)
    ensures text == Canonical6(groups)
    ensures exists start: int, length: nat :: IsFirstLongestRun(groups, start, length)
              && text == if start == -1 then Join(Render(groups, 16), ':') else RenderCompressed(groups, start, length)
  {
    var bestStart: int := -1;
    var bestLength: nat := 0;
    var index: nat := 0;
    while index < |groups|
      invariant index <= |groups|
      invariant BestBefore(groups, index, bestStart, bestLength)
    {
      if groups[index] != 0 {
        index := index + 1;
        continue;
      }
      var end := index;
      while end < |groups| && groups[end] == 0
        invariant index <= end <= |groups|
        invariant forall k :: index <= k < end ==> groups[k] == 0
        invariant end == index ==> end < |groups| && groups[end] == 0
      {
        end := end + 1;
      }
      PassRun(groups, index, end, bestStart, bestLength);
      var length := end - index;
      if length > bestLength && length >= 2 {
        bestStart := index;
        bestLength := length;
      }
      index := end;
    }
    BestBeforeEnd(groups, bestStart, bestLength);
    text := Printed(groups, bestStart, bestLength);
  }

  method Printed(groups: seq<nat>, bestStart: int, bestLength: nat) returns (text: string)
    requires bestStart == -1 || (0 <= bestStart && bestStart + bestLength <= |groups|)
    ensures text == if bestStart == -1 then Join(Render(groups, 16), ':')
            else RenderCompressed(groups, bestStart, bestLength)
  {
    var rendered := Render(groups, 16);
    if bestStart == -1 {
      text := Join(rendered, ':');
    } else {
      assert rendered[..bestStart] == Render(groups[..bestStart], 16);
      assert rendered[bestStart + bestLength..] == Render(groups[bestStart + bestLength..], 16);
      text := Join(rendered[..bestStart], ':') + "::" + Join(rendered[bestStart + bestLength..], ':');
    }
  }

  // ---- whole addresses ----

  /** ::ffff:0:0/96, the IPv4-mapped block of RFC 4291 section 2.5.5.2. */
  predicate IsMapped(groups: seq<nat>)
    requires |groups| == 8
  {
    && groups[0] == 0 && groups[1] == 0 && groups[2] == 0 && groups[3] == 0 && groups[4] == 0
    && groups[5] == 0xffff
  }

  function MappedOctets(value: nat): seq<nat> {
    [value / 0x100_0000 % 256, value / 0x1_0000 % 256, value / 0x100 % 256, value % 256]
  }

  function Ipv6(value: string): Option<Address> {
    match Ipv6Groups(value)
    case None => None
    case Some(groups) =>
      EightGroups(value);
      if IsMapped(groups) then
        var v := groups[6] * 65536 + groups[7];
        Some(Address(4, v, Join(Render(MappedOctets(v), 10), '.')))
      else
        Some(Address(6, Fold(groups, 65536), Canonical6(groups)))
  }

  function AddressOf(text: string): Option<Address> {
    if ':' in text then Ipv6(text) else Ipv4(text)
  }

  method ParseIpAddress(value: string) returns (r: Option<Address>)
    ensures r == AddressOf(value)
  {
    if ':' in value {
      r := ParseIpv6(value);
    } else {
      r := ParseIpv4(value);
    }
  }

  method ParseIpv6(value: string) returns (r: Option<Address>)
    ensures r == Ipv6(value)
  {
    var parsed := ParseIpv6Groups(value);
    if parsed.None? {
      return None;
    }
    var groups := parsed.value;
    EightGroups(value);
    if groups[0] == 0 && groups[1] == 0 && groups[2] == 0 && groups[3] == 0 && groups[4] == 0 && groups[5] == 0xffff {
      var ipv4Value := groups[6] * 65536 + groups[7];
      return Some(Address(4, ipv4Value, Join(Render(MappedOctets(ipv4Value), 10), '.')));
    }
    var numeric := Numeric(groups);
    var canonical := CanonicalizeIpv6(groups);
    return Some(Address(6, numeric, canonical));
  }

  method Numeric(groups: seq<nat>) returns (numeric: nat)
    ensures numeric == Fold(groups, 65536)
  {
    numeric := 0;
    for index := 0 to |groups|
      invariant numeric == Fold(groups[..index], 65536)
    {
      assert groups[..index + 1][..index] == groups[..index];
      numeric := numeric * 65536 + groups[index];
    }
    assert groups[..|groups|] == groups;
  }
}
