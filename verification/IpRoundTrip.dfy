/** Parsing undoes printing: the canonical text of an address denotes that address, so it
    identifies it. */
module IpRoundTrip {
  import opened Arith
  import opened JsText
  import opened Digits
  import opened IpAddress

  lemma GroupText(n: nat)
    requires n < 65536
    ensures IsHexToken(ToText(n, 16)) && HexToken(ToText(n, 16)) == n
    ensures ':' !in ToText(n, 16) && '.' !in ToText(n, 16) && '%' !in ToText(n, 16)
  {
    FromToText(n, 16);
    HexBound("0000");
    assert Power(16, 0) == 1 && Power(16, 1) == 16 && Power(16, 2) == 256 && Power(16, 3) == 4096
        && Power(16, 4) == 65536;
    TextLength(n, 16, 4);
  }

  lemma {:induction false} RenderedGroups(groups: seq<nat>, allow: bool)
    requires Below(groups, 65536)
    ensures GroupsOfTokens(Render(groups, 16), allow) == Some(groups)
  {
    if groups != [] {
      GroupText(groups[0]);
      RenderedGroups(groups[1..], allow);
      assert Render(groups, 16)[1..] == Render(groups[1..], 16);
      assert [groups[0]] + groups[1..] == groups;
    }
  }

  lemma RenderedTokens(groups: seq<nat>)
    requires Below(groups, 65536)
    ensures forall i :: 0 <= i < |groups| ==>
              Render(groups, 16)[i] != "" && ':' !in Render(groups, 16)[i] && '.' !in Render(groups, 16)[i]
                  && '%' !in Render(groups, 16)[i]
  {
    forall i | 0 <= i < |groups|
      ensures Render(groups, 16)[i] != "" && ':' !in Render(groups, 16)[i] && '.' !in Render(groups, 16)[i]
              && '%' !in Render(groups, 16)[i]
    {
      GroupText(groups[i]);
    }
  }

  /** Joining non-empty tokens that hold no colon gives no double colon and no colon at an end. */
  lemma {:induction false} JoinHasNoPair(tokens: seq<string>)
    requires forall i :: 0 <= i < |tokens| ==> tokens[i] != "" && ':' !in tokens[i]
    ensures var t := Join(tokens, ':');
            && (t == "" <==> tokens == [])
            && (t != "" ==> t[0] != ':' && t[|t| - 1] != ':')
            && forall i :: !PairAt(t, i)
  {
    if |tokens| > 1 {
      JoinHasNoPair(tokens[1..]);
      var t, rest := Join(tokens, ':'), Join(tokens[1..], ':');
      var n := |tokens[0]|;
      assert t[..n] == tokens[0] && t[n] == ':' && t[n + 1..] == rest;
      forall i
        ensures !PairAt(t, i)
      {
        if 0 <= i < |t| - 1 {
          if i + 1 < n {
            assert t[i] == tokens[0][i];
          } else if i == n - 1 {
            assert t[i] == tokens[0][i];
          } else if i == n {
            assert t[i + 1] == rest[0];
          } else {
            assert t[i] == rest[i - n - 1] && t[i + 1] == rest[i - n];
            assert !PairAt(rest, i - n - 1);
          }
        }
      }
    }
  }

  lemma TokensOfJoin(tokens: seq<string>)
    requires forall i :: 0 <= i < |tokens| ==> tokens[i] != "" && ':' !in tokens[i]
    ensures TokensOf(Join(tokens, ':')) == tokens
  {
    JoinHasNoPair(tokens);
    if tokens != [] {
      SplitJoin(tokens, ':');
    }
  }

  lemma PlainParses(groups: seq<nat>)
    requires |groups| == 8 && Below(groups, 65536)
    ensures Ipv6Groups(Join(Render(groups, 16), ':')) == Some(groups)
  {
    var tokens := Render(groups, 16);
    RenderedTokens(groups);
    JoinHasNoPair(tokens);
    TokensOfJoin(tokens);
    JoinMembers(tokens, ':', '%');
    RenderedGroups(groups, true);
    var text := Join(tokens, ':');
    assert FirstPair(text, 0) == -1 by {
      if FirstPair(text, 0) != -1 { assert !PairAt(text, FirstPair(text, 0)); }
    }
  }

  /** The double colon of a compressed text is its only one. */
  lemma OnlyPair(left: string, right: string)
    requires left != "" ==> left[|left| - 1] != ':'
    requires right != "" ==> right[0] != ':'
    requires forall i :: !PairAt(left, i) && !PairAt(right, i)
    ensures var text := left + "::" + right;
            FirstPair(text, 0) == |left| && LastPair(text, |text|) == |left|
  {
    var text := left + "::" + right;
    var n := |left|;
    assert text[n] == ':' && text[n + 1] == ':' && text[..n] == left && text[n + 2..] == right;
    assert PairAt(text, n);
    forall i | i != n
      ensures !PairAt(text, i)
    {
      if 0 <= i < |text| - 1 {
        if i + 1 < n {
          assert text[i] == left[i] && text[i + 1] == left[i + 1] && !PairAt(left, i);
        } else if i + 1 == n {
          assert text[i] == left[n - 1];
        } else if i == n + 1 {
          assert text[i + 1] == right[0];
        } else {
          assert text[i] == right[i - n - 2] && text[i + 1] == right[i - n - 1] && !PairAt(right, i - n - 2);
        }
      }
    }
  }

  /** Any run of zero groups may be compressed: the text still denotes the same groups. */
  lemma CompressedParses(groups: seq<nat>, start: nat, length: nat)
    requires |groups| == 8 && Below(groups, 65536)
    requires start + length <= 8 && length >= 1
    requires forall i :: start <= i < start + length ==> groups[i] == 0
    ensures Ipv6Groups(RenderCompressed(groups, start, length)) == Some(groups)
    ensures ':' in RenderCompressed(groups, start, length)
  {
    HalvesParse(groups, start, length);
    SidesParseAround(groups, groups[..start], groups[start + length..], RenderCompressed(groups, start, length));
  }

  lemma SidesParseAround(groups: seq<nat>, lg: seq<nat>, rg: seq<nat>, text: string)
    requires Below(lg, 65536) && Below(rg, 65536) && |lg| + |rg| < 8
    requires SidesParse(Join(Render(lg, 16), ':'), Join(Render(rg, 16), ':'), lg, rg)
    requires groups == lg + Zeros(8 - (|lg| + |rg|)) + rg
    requires text == Join(Render(lg, 16), ':') + "::" + Join(Render(rg, 16), ':')
    ensures Ipv6Groups(text) == Some(groups) && ':' in text
  {
    RenderedJoin(lg);
    RenderedJoin(rg);
    var left, right := Join(Render(lg, 16), ':'), Join(Render(rg, 16), ':');
    OnlyPair(left, right);
    GroupsAroundPair(left, right, lg, rg);
  }

  lemma RenderedJoin(groups: seq<nat>)
    requires Below(groups, 65536)
    ensures var t := Join(Render(groups, 16), ':');
            && '%' !in t && (forall i :: !PairAt(t, i))
            && (t != "" ==> t[0] != ':' && t[|t| - 1] != ':')
  {
    RenderedTokens(groups);
    JoinHasNoPair(Render(groups, 16));
    JoinMembers(Render(groups, 16), ':', '%');
  }

  predicate SidesParse(left: string, right: string, lg: seq<nat>, rg: seq<nat>) {
    && GroupsOfTokens(TokensOf(left), TokensOf(right) == []) == Some(lg)
    && GroupsOfTokens(TokensOf(right), true) == Some(rg)
  }

  lemma AroundPair(left: string, right: string)
    ensures var text := left + "::" + right;
            && text != "" && text[|left|] == ':' && text[..|left|] == left && text[|left| + 2..] == right
            && ('%' in text ==> '%' in left || '%' in right)
  {
  }

  lemma GroupsAroundPair(left: string, right: string, lg: seq<nat>, rg: seq<nat>)
    requires '%' !in left && '%' !in right && |lg| + |rg| < 8
    requires FirstPair(left + "::" + right, 0) == |left|
    requires LastPair(left + "::" + right, |left + "::" + right|) == |left|
    requires SidesParse(left, right, lg, rg)
    ensures Ipv6Groups(left + "::" + right) == Some(lg + Zeros(8 - (|lg| + |rg|)) + rg)
    ensures ':' in left + "::" + right
  {
    AroundPair(left, right);
    assert GroupsOfSides(true, left, right) == Some(lg + Zeros(8 - (|lg| + |rg|)) + rg);
  }

  lemma HalvesParse(groups: seq<nat>, start: nat, length: nat)
    requires |groups| == 8 && Below(groups, 65536)
    requires start + length <= 8
    requires forall i :: start <= i < start + length ==> groups[i] == 0
    ensures SidesParse(Join(Render(groups[..start], 16), ':'), Join(Render(groups[start + length..], 16), ':'),
                       groups[..start], groups[start + length..])
    ensures groups == groups[..start] + Zeros(length) + groups[start + length..]
  {
    var lg, rg := groups[..start], groups[start + length..];
    var lt, rt := Render(lg, 16), Render(rg, 16);
    RenderedTokens(lg);
    RenderedTokens(rg);
    TokensOfJoin(lt);
    TokensOfJoin(rt);
    RenderedGroups(lg, rt == []);
    RenderedGroups(rg, true);
  }

  lemma CanonicalParses(groups: seq<nat>)
    requires |groups| == 8 && Below(groups, 65536)
    ensures Ipv6Groups(Canonical6(groups)) == Some(groups)
    ensures ':' in Canonical6(groups)
  {
    var (start, length) := BestRun(groups, 0);
    BestRunIsFirstLongest(groups);
    if start == -1 {
      PlainParses(groups);
      var tokens := Render(groups, 16);
      assert Join(tokens, ':')[|tokens[0]|] == ':';
    } else {
      CompressedParses(groups, start, length);
    }
  }

  lemma OctetsOfValue(a: nat, b: nat, c: nat, d: nat)
    requires a < 256 && b < 256 && c < 256 && d < 256
    ensures MappedOctets(Fold([a, b, c, d], 256)) == [a, b, c, d]
  {
    Fold4(a, b, c, d, 256);
    var ab, abc := a * 256 + b, (a * 256 + b) * 256 + c;
    var v := abc * 256 + d;
    LowDigit(a, 256, b);
    LowDigit(ab, 256, c);
    LowDigit(abc, 256, d);
    assert v / 0x1_0000 == v / 256 / 256 && v / 0x100_0000 == v / 256 / 256 / 256;
  }

  lemma ValueOfOctets(value: nat)
    requires value < 0x1_0000_0000
    ensures Below(MappedOctets(value), 256) && Fold(MappedOctets(value), 256) == value
  {
    var o := MappedOctets(value);
    var b1, b2 := value / 0x100, value / 0x1_0000;
    assert value == b1 * 256 + value % 256;
    assert b2 == b1 / 256 && b1 == b2 * 256 + b1 % 256;
    assert value / 0x100_0000 == b2 / 256 && b2 / 256 < 256 && b2 == b2 / 256 * 256 + b2 % 256;
    Fold4(o[0], o[1], o[2], o[3], 256);
  }

  /** Every version-4 result is the printed form of the four octets of its value, whether it
      was written dotted or as an IPv4-mapped IPv6 address. */
  lemma Version4Form(text: string, a: Address)
    requires AddressOf(text) == Some(a) && a.version == 4
    ensures a.value < 0x1_0000_0000 && a == Ipv4FromOctets(MappedOctets(a.value))
  {
    if ':' in text {
      var groups := Ipv6Groups(text).value;
      EightGroups(text);
      ValueOfOctets(a.value);
    } else {
      var o := OctetsOf(Split(text, '.'));
      assert o == [o[0], o[1], o[2], o[3]];
      OctetsOfValue(o[0], o[1], o[2], o[3]);
      Fold4(o[0], o[1], o[2], o[3], 256);
    }
  }

  lemma Version6Form(text: string, a: Address)
    requires AddressOf(text) == Some(a) && a.version == 6
    ensures Ipv6Groups(text).Some? && |Ipv6Groups(text).value| == 8 && Below(Ipv6Groups(text).value, 65536)
    ensures !IsMapped(Ipv6Groups(text).value)
    ensures a == Address(6, Fold(Ipv6Groups(text).value, 65536), Canonical6(Ipv6Groups(text).value))
  {
    EightGroups(text);
  }

  /** The round trip: parsing the canonical text of a parsed address gives the address back. */
  lemma RoundTrip(text: string, a: Address)
    requires AddressOf(text) == Some(a)
    ensures a.version == 4 || a.version == 6
    ensures AddressOf(a.canonical) == Some(a)
  {
    if a.version == 4 {
      Version4Form(text, a);
      ValueOfOctets(a.value);
      Ipv4Prints(MappedOctets(a.value));
    } else {
      Version6Form(text, a);
      CanonicalParses(Ipv6Groups(text).value);
    }
  }

  /** Canonical texts agree exactly when the addresses have the same version and value. */
  lemma CanonicalIdentifies(t1: string, a1: Address, t2: string, a2: Address)
    requires AddressOf(t1) == Some(a1) && AddressOf(t2) == Some(a2)
    ensures a1.canonical == a2.canonical <==> a1.version == a2.version && a1.value == a2.value
  {
    RoundTrip(t1, a1);
    RoundTrip(t2, a2);
    if a1.version == a2.version && a1.value == a2.value {
      if a1.version == 4 {
        Version4Form(t1, a1);
        Version4Form(t2, a2);
      } else {
        Version6Form(t1, a1);
        Version6Form(t2, a2);
        FoldInjective(Ipv6Groups(t1).value, Ipv6Groups(t2).value, 65536);
      }
    }
  }

  /** The version-6 text shortens the first longest run of two or more zero groups and no
      other, and leaves every other group as an unpadded lower-case numeral. */
  lemma CanonicalForm(text: string, a: Address)
    requires AddressOf(text) == Some(a) && a.version == 6
    ensures exists groups: seq<nat>, start: int, length: nat ::
              && |groups| == 8 && Below(groups, 65536) && a.value == Fold(groups, 65536)
              && IsFirstLongestRun(groups, start, length)
              && a.canonical == if start == -1 then Join(Render(groups, 16), ':')
                  else RenderCompressed(groups, start, length)
  {
    Version6Form(text, a);
    var groups := Ipv6Groups(text).value;
    BestRunIsFirstLongest(groups);
  }

  lemma ValueBound(text: string, a: Address)
    requires AddressOf(text) == Some(a)
    ensures a.version == 4 || a.version == 6
    ensures a.version == 4 ==> a.value < Power(2, 32)
    ensures a.version == 6 ==> a.value < Power(2, 128)
  {
    PowersOfTwo();
    if a.version == 4 {
      Version4Form(text, a);
    } else {
      Version6Form(text, a);
      FoldBound(Ipv6Groups(text).value, 65536);
      PowersOf65536();
    }
  }

  lemma PowersOfTwo()
    ensures Power(2, 16) == 65536 && Power(2, 32) == 0x1_0000_0000
  {
    assert Power(2, 4) == 16 by { assert Power(2, 2) == 4 && Power(2, 3) == 8; }
    PowerSplit(2, 4, 4);
    PowerSplit(2, 8, 8);
    PowerSplit(2, 16, 16);
  }

  lemma {:induction false} PowerSplit(base: nat, j: nat, k: nat)
    ensures Power(base, j + k) == Power(base, j) * Power(base, k)
  {
    if j > 0 {
      PowerSplit(base, j - 1, k);
      assert Power(base, j + k) == base * Power(base, (j - 1) + k);
      MulAssoc(base, Power(base, j - 1), Power(base, k));
    }
  }

  lemma PowersOf65536()
    ensures Power(65536, 8) == Power(2, 128)
  {
    PowersOfTwo();
    PowerSplit(2, 32, 32);
    PowerSplit(2, 64, 64);
    assert Power(65536, 1) == 65536;
    PowerSplit(65536, 1, 1);
    PowerSplit(65536, 2, 2);
    PowerSplit(65536, 4, 4);
  }
}
