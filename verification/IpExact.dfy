/** Exactly which texts the address parser reads, and as what (src/core/network/ip-cidr.ts). */
module IpExact {
  import opened Arith
  import opened JsText
  import opened Digits
  import opened IpAddress
  import opened IpRoundTrip

  lemma {:induction false} DecimalBound(s: string)
    requires Numeral(s, 10)
    ensures FromText(s, 10) < Power(10, |s|)
  {
    if s != "" {
      DecimalBound(s[..|s| - 1]);
    }
  }

  /** A short decimal is the numeral printed for a number below 1000. */
  lemma ShortDecimalExact(s: string, n: nat)
    ensures IsShortDecimal(s) && ShortDecimal(s) == n <==> n <= 999 && s == ToText(n, 10)
  {
    assert Power(10, 0) == 1 && Power(10, 1) == 10 && Power(10, 2) == 100 && Power(10, 3) == 1000;
    if IsShortDecimal(s) && ShortDecimal(s) == n {
      DecimalBound(s);
      if s == "0" {
        FromToText(0, 10);
        FromDigit(0, 10);
        assert "0" == [DigitChar(0)];
      } else {
        ToFromText(s);
      }
    }
    if n <= 999 && s == ToText(n, 10) {
      FromToText(n, 10);
      NoLeadingZero(n, 10);
      TextLength(n, 10, 3);
      forall i | 0 <= i < |s|
        ensures IsDecimal(s[i])
      {
        assert DigitValue(s[i]) < 10;
      }
    }
  }

  /** The dotted text of four numbers. */
  function Dotted(a: nat, b: nat, c: nat, d: nat): string {
    ToText(a, 10) + "." + ToText(b, 10) + "." + ToText(c, 10) + "." + ToText(d, 10)
  }

  lemma JoinFour(a: string, b: string, c: string, d: string)
    ensures Join([a, b, c, d], '.') == a + "." + b + "." + c + "." + d
  {
    assert [a, b, c, d][1..] == [b, c, d] && [b, c, d][1..] == [c, d] && [c, d][1..] == [d];
    assert ['.'] == ".";
    assert Join([c, d], '.') == c + "." + d;
    assert Join([b, c, d], '.') == b + "." + (c + "." + d);
    assert a + "." + (b + "." + (c + "." + d)) == a + "." + b + "." + c + "." + d;
  }

  /** A dotted text is read if and only if it writes four numbers up to 255 without leading zeros;
      it is its own canonical form. */
  lemma Ipv4Exact(text: string, r: Address)
    ensures Ipv4(text) == Some(r) <==>
            exists a: nat, b: nat, c: nat, d: nat ::
              && a <= 255 && b <= 255 && c <= 255 && d <= 255 && text == Dotted(a, b, c, d)
              && r == Address(4, a * 0x100_0000 + b * 0x1_0000 + c * 0x100 + d, text)
  {
    if Ipv4(text) == Some(r) {
      Ipv4Reads(text, r);
    }
    if a: nat, b: nat, c: nat, d: nat :|
        && a <= 255 && b <= 255 && c <= 255 && d <= 255 && text == Dotted(a, b, c, d)
        && r == Address(4, a * 0x100_0000 + b * 0x1_0000 + c * 0x100 + d, text) {
      Ipv4Written(a, b, c, d);
    }
  }

  lemma DottedIsPrinted(o: seq<nat>)
    requires |o| == 4 && Below(o, 256)
    ensures Ipv4FromOctets(o) ==
            Address(4, o[0] * 0x100_0000 + o[1] * 0x1_0000 + o[2] * 0x100 + o[3], Dotted(o[0], o[1], o[2], o[3]))
  {
    assert o == [o[0], o[1], o[2], o[3]];
    Fold4(o[0], o[1], o[2], o[3], 256);
    JoinFour(ToText(o[0], 10), ToText(o[1], 10), ToText(o[2], 10), ToText(o[3], 10));
    assert Render(o, 10) == [ToText(o[0], 10), ToText(o[1], 10), ToText(o[2], 10), ToText(o[3], 10)];
  }

  lemma Ipv4Written(a: nat, b: nat, c: nat, d: nat)
    requires a <= 255 && b <= 255 && c <= 255 && d <= 255
    ensures Ipv4(Dotted(a, b, c, d)) ==
            Some(Address(4, a * 0x100_0000 + b * 0x1_0000 + c * 0x100 + d, Dotted(a, b, c, d)))
  {
    var o := [a, b, c, d];
    DottedIsPrinted(o);
    Ipv4Prints(o);
  }

  lemma FourOf(o: seq<nat>)
    requires |o| == 4 && Below(o, 256)
    ensures o[0] <= 255 && o[1] <= 255 && o[2] <= 255 && o[3] <= 255
  {
  }

  lemma Ipv4Reads(text: string, r: Address)
    requires Ipv4(text) == Some(r)
    ensures exists a: nat, b: nat, c: nat, d: nat ::
              && a <= 255 && b <= 255 && c <= 255 && d <= 255 && text == Dotted(a, b, c, d)
              && r == Address(4, a * 0x100_0000 + b * 0x1_0000 + c * 0x100 + d, text)
  {
    var parts := Split(text, '.');
    var o := OctetsOf(parts);
    forall i | 0 <= i < 4
      ensures parts[i] == Render(o, 10)[i]
    {
      ShortDecimalExact(parts[i], o[i]);
    }
    assert parts == Render(o, 10);
    JoinSplit(text, '.');
    DottedIsPrinted(o);
    FourOf(o);
    assert text == Dotted(o[0], o[1], o[2], o[3]);
  }

  /** What a token list denotes: each token one to four hexadecimal digits; where a dotted tail is
      allowed the last token may be a dotted text, which stands for its upper and lower 16 bits. */
  ghost predicate Denote(tokens: seq<string>, tailAllowed: bool, groups: seq<nat>) {
    || (|groups| == |tokens| && HexTokens(tokens, groups))
    || (&& tailAllowed && |tokens| >= 1 && |groups| == |tokens| + 1
        && HexTokens(tokens[..|tokens| - 1], groups[..|tokens| - 1])
        && Tail(tokens[|tokens| - 1], groups[|tokens| - 1], groups[|tokens|]))
  }

  ghost predicate HexTokens(tokens: seq<string>, groups: seq<nat>)
    requires |groups| == |tokens|
  {
    forall i :: 0 <= i < |tokens| ==>
      1 <= |tokens[i]| <= 4 && Numeral(tokens[i], 16) && groups[i] == FromText(tokens[i], 16)
  }

  ghost predicate Tail(token: string, high: nat, low: nat) {
    low < 65536 && Ipv4(token) == Some(Address(4, high * 65536 + low, token))
  }

  lemma NotInDotted(token: string, c: char)
    requires Ipv4(token).Some? && c != '.' && !IsDecimal(c)
    ensures c !in token
  {
    var parts := Split(token, '.');
    JoinSplit(token, '.');
    JoinMembers(parts, '.', c);
    forall i | 0 <= i < |parts|
      ensures c !in parts[i]
    {
      assert OctetOf(parts[i]).Some?;
    }
  }

  lemma DottedHasDot(token: string)
    requires Ipv4(token).Some?
    ensures '.' in token && ':' !in token && '/' !in token && '%' !in token && token != ""
  {
    if '.' !in token {
      SplitFree(token, '.');
    }
    NotInDotted(token, ':');
    NotInDotted(token, '/');
    NotInDotted(token, '%');
  }

  lemma HexToken16(s: string)
    ensures IsHexToken(s) <==> 1 <= |s| <= 4 && Numeral(s, 16)
  {
  }

  lemma TailHalves(token: string)
    requires Ipv4(token).Some?
    ensures var g := Halves(Ipv4(token).value); Tail(token, g[0], g[1])
    ensures forall high: nat, low: nat :: Tail(token, high, low) ==> [high, low] == Halves(Ipv4(token).value)
  {
    var r := Ipv4(token).value;
    DottedValue(token, r);
    HalvesOf(r.value);
    forall high: nat, low: nat | Tail(token, high, low)
      ensures [high, low] == Halves(r)
    {
      LowDigit(high, 65536, low);
      HalvesOf(high * 65536 + low);
    }
  }

  lemma DottedValue(token: string, r: Address)
    requires Ipv4(token) == Some(r)
    ensures r.value < 0x1_0000_0000 && r == Address(4, r.value, token)
  {
    Ipv4Reads(token, r);
  }

  lemma HalvesOf(value: nat)
    requires value < 0x1_0000_0000
    ensures value / 65536 < 65536 && value / 65536 % 65536 == value / 65536
    ensures value == value / 65536 * 65536 + value % 65536
  {
  }

  /** convert reads exactly the token lists that denote groups, as those groups. */
  lemma {:induction false} TokensExact(tokens: seq<string>, tailAllowed: bool, groups: seq<nat>)
    ensures GroupsOfTokens(tokens, tailAllowed) == Some(groups) <==> Denote(tokens, tailAllowed, groups)
  {
    if tokens != [] {
      HexToken16(tokens[0]);
      if '.' in tokens[0] {
        TailFirst(tokens, tailAllowed, groups);
      } else {
        if groups != [] {
          TokensExact(tokens[1..], tailAllowed, groups[1..]);
          assert groups == [groups[0]] + groups[1..];
        }
        HexFirst(tokens, tailAllowed, groups);
      }
    }
  }

  lemma TailFirst(tokens: seq<string>, tailAllowed: bool, groups: seq<nat>)
    requires tokens != [] && '.' in tokens[0]
    ensures GroupsOfTokens(tokens, tailAllowed) == Some(groups) <==> Denote(tokens, tailAllowed, groups)
  {
    HexToken16(tokens[0]);
    assert !IsHexToken(tokens[0]);
    if |tokens| == 1 && Ipv4(tokens[0]).Some? {
      TailHalves(tokens[0]);
      if |groups| == 2 {
        assert groups == [groups[0], groups[1]];
      }
    }
    if |tokens| > 1 && |groups| == |tokens| + 1 {
      assert tokens[..|tokens| - 1][0] == tokens[0];
    }
  }

  lemma HexFirst(tokens: seq<string>, tailAllowed: bool, groups: seq<nat>)
    requires tokens != [] && '.' !in tokens[0]
    requires groups != [] ==>
      (GroupsOfTokens(tokens[1..], tailAllowed) == Some(groups[1..]) <==> Denote(tokens[1..], tailAllowed, groups[1..]))
    ensures GroupsOfTokens(tokens, tailAllowed) == Some(groups) <==> Denote(tokens, tailAllowed, groups)
  {
    HexToken16(tokens[0]);
    DenoteCons(tokens, tailAllowed, groups);
    var rest := GroupsOfTokens(tokens[1..], tailAllowed);
    if groups != [] && IsHexToken(tokens[0]) && rest.Some? {
      assert [HexToken(tokens[0])] + rest.value == groups
          <==> HexToken(tokens[0]) == groups[0] && rest.value == groups[1..];
    }
  }

  lemma DenoteCons(tokens: seq<string>, tailAllowed: bool, groups: seq<nat>)
    requires tokens != [] && '.' !in tokens[0]
    ensures Denote(tokens, tailAllowed, groups) <==>
            && groups != [] && 1 <= |tokens[0]| <= 4 && Numeral(tokens[0], 16) && groups[0] == FromText(tokens[0], 16)
            && Denote(tokens[1..], tailAllowed, groups[1..])
  {
    if Ipv4(tokens[0]).Some? {
      DottedHasDot(tokens[0]);
    }
    var n := |tokens|;
    if |groups| == n {
      HexCons(tokens, groups);
    }
    if |groups| == n + 1 && n > 1 {
      HexCons(tokens[..n - 1], groups[..n - 1]);
      assert tokens[..n - 1][1..] == tokens[1..][..n - 2] && groups[..n - 1][1..] == groups[1..][..n - 2];
    }
  }

  lemma HexCons(tokens: seq<string>, groups: seq<nat>)
    requires |groups| == |tokens| >= 1
    ensures HexTokens(tokens, groups) <==>
            && 1 <= |tokens[0]| <= 4 && Numeral(tokens[0], 16) && groups[0] == FromText(tokens[0], 16)
            && HexTokens(tokens[1..], groups[1..])
  {
    if HexTokens(tokens[1..], groups[1..]) {
      assert forall i :: 0 < i < |tokens| ==> tokens[i] == tokens[1..][i - 1] && groups[i] == groups[1..][i - 1];
    }
  }

  /** The groups that a version-6 text denotes: eight of them without a double colon; with one, and
      only one, the groups to its left and right, seven at most, and zeros between them. A dotted tail
      may end the text, or stand before a double colon that ends it. */
  ghost predicate TextDenotes(text: string, groups: seq<nat>) {
    && '%' !in text
    && (|| (|groups| == 8 && (forall i :: !PairAt(text, i)) && Denote(TokensOf(text), true, groups))
        || exists k: nat, left: seq<nat>, right: seq<nat> :: Around(text, k, left, right, groups))
  }

  ghost predicate Around(text: string, k: nat, left: seq<nat>, right: seq<nat>, groups: seq<nat>) {
    && PairAt(text, k) && (forall i :: PairAt(text, i) ==> i == k)
    && Denote(TokensOf(text[..k]), text[k + 2..] == "", left) && Denote(TokensOf(text[k + 2..]), true, right)
    && |left| + |right| <= 7 && |groups| == 8
    && groups[..|left|] == left && groups[8 - |right|..] == right
    && forall i :: |left| <= i < 8 - |right| ==> groups[i] == 0
  }

  /** The group parser reads exactly the texts that denote eight groups, as those. */
  lemma Ipv6Exact(text: string, groups: seq<nat>)
    ensures Ipv6Groups(text) == Some(groups) <==> TextDenotes(text, groups)
  {
    var k := FirstPair(text, 0);
    if text == "" {
      NoGroupsInNothing(groups);
    } else if k == -1 {
      NoPairAnywhere(text);
      PlainExact(text, groups);
    } else if '%' !in text {
      if k != LastPair(text, |text|) {
        assert PairAt(text, LastPair(text, |text|));
      } else {
        assert forall i :: PairAt(text, i) ==> i == k;
        CompressedExact(text, k, groups);
      }
    }
  }

  lemma NoPairAnywhere(text: string)
    requires FirstPair(text, 0) == -1
    ensures forall i :: !PairAt(text, i)
  {
  }

  lemma NoGroupsInNothing(groups: seq<nat>)
    ensures !TextDenotes("", groups)
  {
    assert TokensOf("") == [];
  }

  lemma PlainExact(text: string, groups: seq<nat>)
    requires text != "" && forall i :: !PairAt(text, i)
    ensures Ipv6Groups(text) == Some(groups) <==> TextDenotes(text, groups)
  {
    TokensExact(TokensOf(text), true, groups);
    assert TokensOf("") == [];
    assert FirstPair(text, 0) == -1;
  }

  lemma AroundZeros(left: seq<nat>, right: seq<nat>, groups: seq<nat>)
    requires |left| + |right| <= 7
    ensures groups == left + Zeros(8 - (|left| + |right|)) + right <==>
            && |groups| == 8 && groups[..|left|] == left && groups[8 - |right|..] == right
            && forall i :: |left| <= i < 8 - |right| ==> groups[i] == 0
  {
    var zeros := Zeros(8 - (|left| + |right|));
    if |groups| == 8 && groups[..|left|] == left && groups[8 - |right|..] == right
        && forall i :: |left| <= i < 8 - |right| ==> groups[i] == 0 {
      assert groups == groups[..|left|] + groups[|left|..8 - |right|] + groups[8 - |right|..];
      assert groups[|left|..8 - |right|] == zeros;
    }
  }

  /** Where the one double colon stands, and what stands beside it. */
  lemma CompressedSides(text: string, k: nat)
    requires '%' !in text && PairAt(text, k) && FirstPair(text, 0) == k == LastPair(text, |text|)
    ensures Ipv6Groups(text) == GroupsOfSides(true, text[..k], text[k + 2..])
    ensures TokensOf(text[k + 2..]) == [] <==> text[k + 2..] == ""
  {
  }

  lemma CompressedExact(text: string, k: nat, groups: seq<nat>)
    requires '%' !in text && PairAt(text, k) && FirstPair(text, 0) == k == LastPair(text, |text|)
    requires forall i :: PairAt(text, i) ==> i == k
    ensures Ipv6Groups(text) == Some(groups) <==> TextDenotes(text, groups)
  {
    CompressedSides(text, k);
    var l, r := text[..k], text[k + 2..];
    if GroupsOfSides(true, l, r) == Some(groups) {
      SidesDenote(text, k, groups);
    }
    if TextDenotes(text, groups) {
      var j: nat, left: seq<nat>, right: seq<nat> :| Around(text, j, left, right, groups);
      DenotedSides(text, j, left, right, groups);
    }
  }

  lemma SidesDenote(text: string, k: nat, groups: seq<nat>)
    requires PairAt(text, k) && forall i :: PairAt(text, i) ==> i == k
    requires GroupsOfSides(true, text[..k], text[k + 2..]) == Some(groups)
    ensures exists left: seq<nat>, right: seq<nat> :: Around(text, k, left, right, groups)
  {
    var l, r := TokensOf(text[..k]), TokensOf(text[k + 2..]);
    assert r == [] <==> text[k + 2..] == "";
    var left, right := GroupsOfTokens(l, r == []).value, GroupsOfTokens(r, true).value;
    TokensExact(l, r == [], left);
    TokensExact(r, true, right);
    AroundZeros(left, right, groups);
    assert Around(text, k, left, right, groups);
  }

  lemma DenotedSides(text: string, k: nat, left: seq<nat>, right: seq<nat>, groups: seq<nat>)
    requires Around(text, k, left, right, groups)
    ensures GroupsOfSides(true, text[..k], text[k + 2..]) == Some(groups)
  {
    BothSides(text[..k], text[k + 2..], left, right);
    AroundZeros(left, right, groups);
  }

  lemma BothSides(l: string, r: string, left: seq<nat>, right: seq<nat>)
    requires Denote(TokensOf(l), r == "", left) && Denote(TokensOf(r), true, right)
    ensures GroupsOfSides(true, l, r) == Assembled(true, Some(left), Some(right))
  {
    assert TokensOf(r) == [] <==> r == "";
    TokensExact(TokensOf(l), r == "", left);
    TokensExact(TokensOf(r), true, right);
  }

  lemma Fold8(g: seq<nat>, radix: nat)
    requires |g| == 8
    ensures Fold(g, radix) ==
            (((((((g[0] * radix + g[1]) * radix + g[2]) * radix + g[3]) * radix + g[4]) * radix + g[5]) * radix + g[6])
              * radix + g[7])
  {
    assert g[..8] == g && g[..4] == [g[0], g[1], g[2], g[3]];
    Fold4(g[0], g[1], g[2], g[3], radix);
    FoldNext(g, 4, radix);
    FoldNext(g, 5, radix);
    FoldNext(g, 6, radix);
    FoldNext(g, 7, radix);
  }

  lemma FoldNext(g: seq<nat>, k: nat, radix: nat)
    requires k < |g|
    ensures Fold(g[..k + 1], radix) == Fold(g[..k], radix) * radix + g[k]
  {
    assert g[..k + 1][..k] == g[..k];
  }

  /** A text with a colon is read if and only if it denotes eight groups. When the first six are
      0:0:0:0:0:ffff it is the version-4 address of the last two, otherwise the version-6 address of
      all eight. */
  lemma ColonTextExact(text: string, groups: seq<nat>)
    requires ':' in text
    ensures AddressOf(text).Some? <==> exists g: seq<nat> :: TextDenotes(text, g)
    ensures TextDenotes(text, groups) ==>
      var a := AddressOf(text).GetOr(Address(0, 0, ""));
      if groups[..6] == [0, 0, 0, 0, 0, 0xffff] then a.version == 4 && a.value == groups[6] * 65536 + groups[7]
      else a.version == 6 && a.value == Fold(groups, 65536)
  {
    ReadIffDenoted(text);
    if TextDenotes(text, groups) {
      Ipv6Exact(text, groups);
      ReadAsGroups(text, groups);
    }
  }

  lemma ReadIffDenoted(text: string)
    requires ':' in text
    ensures AddressOf(text).Some? <==> exists g: seq<nat> :: TextDenotes(text, g)
  {
    if AddressOf(text).Some? {
      Ipv6Exact(text, Ipv6Groups(text).value);
    }
    if g: seq<nat> :| TextDenotes(text, g) {
      Ipv6Exact(text, g);
    }
  }

  lemma ReadAsGroups(text: string, groups: seq<nat>)
    requires ':' in text && Ipv6Groups(text) == Some(groups)
    ensures |groups| == 8 && AddressOf(text).Some?
    ensures var a := AddressOf(text).value;
            if groups[..6] == [0, 0, 0, 0, 0, 0xffff] then a.version == 4 && a.value == groups[6] * 65536 + groups[7]
            else a.version == 6 && a.value == Fold(groups, 65536)
  {
    EightGroups(text);
    MappedPrefix(groups);
  }

  lemma MappedPrefix(groups: seq<nat>)
    requires |groups| == 8
    ensures IsMapped(groups) <==> groups[..6] == [0, 0, 0, 0, 0, 0xffff]
  {
    var front := groups[..6];
    if IsMapped(groups) {
      assert front == [front[0], front[1], front[2], front[3], front[4], front[5]];
    }
  }

  /** A text without a colon is read as the dotted text it is. */
  lemma DottedTextExact(text: string, r: Address)
    requires ':' !in text
    ensures AddressOf(text) == Some(r) <==>
            exists a: nat, b: nat, c: nat, d: nat ::
              && a <= 255 && b <= 255 && c <= 255 && d <= 255 && text == Dotted(a, b, c, d)
              && r == Address(4, a * 0x100_0000 + b * 0x1_0000 + c * 0x100 + d, text)
  {
    Ipv4Exact(text, r);
  }

  /** The mapped form of a dotted address is that address. */
  lemma MappedText(text: string, a: Address)
    requires Ipv4(text) == Some(a)
    ensures AddressOf("::ffff:" + text) == Some(a)
  {
    DottedHasDot(text);
    assert AddressOf(text) == Some(a);
    Version4Form(text, a);
    MappedValue(text, a);
    SameVersion4("::ffff:" + text, AddressOf("::ffff:" + text).value, a);
  }

  lemma MappedValue(text: string, a: Address)
    requires Ipv4(text) == Some(a)
    ensures AddressOf("::ffff:" + text).Some?
    ensures AddressOf("::ffff:" + text).value.version == 4 && AddressOf("::ffff:" + text).value.value == a.value
  {
    var long, groups := "::ffff:" + text, [0, 0, 0, 0, 0, 0xffff] + Halves(a);
    assert long[0] == ':';
    MappedDenotes(text, a);
    Ipv6Exact(long, groups);
    SixThenTwo(Halves(a));
    ReadAsGroups(long, groups);
    DottedValue(text, a);
    HalvesOf(a.value);
  }

  lemma SixThenTwo(halves: seq<nat>)
    requires |halves| == 2
    ensures var groups := [0, 0, 0, 0, 0, 0xffff] + halves;
            groups[..6] == [0, 0, 0, 0, 0, 0xffff] && groups[6] == halves[0] && groups[7] == halves[1]
  {
  }

  lemma SameVersion4(text: string, r: Address, a: Address)
    requires AddressOf(text) == Some(r) && r.version == 4 && r.value == a.value
    requires a.value < 0x1_0000_0000 && a == Ipv4FromOctets(MappedOctets(a.value))
    ensures r == a
  {
    Version4Form(text, r);
  }

  lemma MappedDenotes(text: string, a: Address)
    requires Ipv4(text) == Some(a)
    ensures TextDenotes("::ffff:" + text, [0, 0, 0, 0, 0, 0xffff] + Halves(a))
  {
    var long := "::ffff:" + text;
    DottedHasDot(text);
    assert long[2..] == "ffff" + [':'] + text;
    MappedTokens(text, a);
    OnePairAtStart(text);
    FiveZeros(Halves(a));
    AroundMapped(long, [0xffff] + Halves(a), [0, 0, 0, 0, 0, 0xffff] + Halves(a));
  }

  lemma OnePairAtStart(text: string)
    requires ':' !in text && '%' !in text
    ensures var long := "::ffff:" + text; '%' !in long && PairAt(long, 0) && forall i :: PairAt(long, i) ==> i == 0
  {
    var long := "::ffff:" + text;
    forall i | 0 < i < |long| - 1
      ensures !PairAt(long, i)
    {
      if i >= 7 {
        assert long[i] == text[i - 7];
      }
    }
  }

  lemma AroundMapped(long: string, right: seq<nat>, groups: seq<nat>)
    requires '%' !in long && PairAt(long, 0) && forall i :: PairAt(long, i) ==> i == 0
    requires Denote(TokensOf(long[2..]), true, right) && |right| == 3
    requires |groups| == 8 && groups[5..] == right && forall i :: 0 <= i < 5 ==> groups[i] == 0
    ensures TextDenotes(long, groups)
  {
    assert long[..0] == "" && TokensOf("") == [] && groups[..0] == [];
    assert Denote([], long[2..] == "", []);
    assert 8 - |right| == 5;
    assert Around(long, 0, [], right, groups);
  }

  lemma FiveZeros(halves: seq<nat>)
    requires |halves| == 2
    ensures var groups := [0, 0, 0, 0, 0, 0xffff] + halves;
            groups[5..] == [0xffff] + halves && forall i :: 0 <= i < 5 ==> groups[i] == 0
  {
  }

  lemma MappedTokens(text: string, a: Address)
    requires Ipv4(text) == Some(a)
    ensures Denote(TokensOf("ffff" + [':'] + text), true, [0xffff] + Halves(a))
  {
    var tokens, groups := ["ffff", text], [0xffff] + Halves(a);
    DottedHasDot(text);
    TailHalves(text);
    SplitAtSeparator("ffff", text, ':');
    SplitFree("ffff", ':');
    SplitFree(text, ':');
    FourFs();
    assert tokens[..1] == ["ffff"] && groups[..1] == [0xffff];
    assert HexTokens(tokens[..1], groups[..1]);
    assert Denote(tokens, true, groups);
  }

  lemma AnotherF(front: string, f: char)
    requires Numeral(front, 16) && f == DigitChar(15)
    ensures Numeral(front + [f], 16) && FromText(front + [f], 16) == FromText(front, 16) * 16 + 15
  {
    FromTextSnoc(front, 15, 16);
  }

  lemma FourFs()
    ensures Numeral("ffff", 16) && FromText("ffff", 16) == 0xffff
  {
    var f := DigitChar(15);
    AnotherF([], f);
    AnotherF([] + [f], f);
    AnotherF([] + [f] + [f], f);
    AnotherF([] + [f] + [f] + [f], f);
    assert [] + [f] + [f] + [f] + [f] == "ffff";
  }

  /** A zero run ends only at the end of the groups or before a group that is not zero. */
  lemma {:induction false} RunIsMaximal(groups: seq<nat>, i: nat)
    requires i < |groups|
    ensures var end := i + ZeroRun(groups, i);
            && end <= |groups| && (end < |groups| ==> groups[end] != 0)
            && forall k :: i <= k < end ==> groups[k] == 0
    decreases |groups| - i
  {
    if groups[i] == 0 && i + 1 < |groups| {
      RunIsMaximal(groups, i + 1);
    }
  }
}
