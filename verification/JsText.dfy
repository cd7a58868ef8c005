/** The host language's string operations that the text parsers are built on:
    trimming, splitting on one character, joining, and positional numerals. */
module JsText {

  datatype Option<+T> = None | Some(value: T) {
    function GetOr(other: T): T {
      if Some? then value else other
    }
  }

  /** White space and line terminators, as String.prototype.trim removes them. */
  predicate IsSpace(c: char) {
    var u := c as int;
    || 0x09 <= u <= 0x0D || u == 0x20 || u == 0xA0 || u == 0x1680
    || 0x2000 <= u <= 0x200A || u == 0x2028 || u == 0x2029 || u == 0x202F
    || u == 0x205F || u == 0x3000 || u == 0xFEFF
  }

  /** The white space and line terminators of ECMA-262, one by one. */
  const WHITE_SPACE := "\t\n\U{B}\U{C}\r \U{A0}\U{1680}\U{2000}\U{2001}\U{2002}\U{2003}\U{2004}\U{2005}\U{2006}"
                       + "\U{2007}\U{2008}\U{2009}\U{200A}\U{2028}\U{2029}\U{202F}\U{205F}\U{3000}\U{FEFF}"

  lemma WhiteSpaceTable(c: char)
    ensures IsSpace(c) <==> c in WHITE_SPACE
  {
  }

  predicate AllSpace(s: string) {
    forall i :: 0 <= i < |s| ==> IsSpace(s[i])
  }

  /** Neither end of the text is white space. */
  predicate Tight(s: string) {
    s == "" || (!IsSpace(s[0]) && !IsSpace(s[|s| - 1]))
  }

  function TrimStart(s: string): string {
    if s != "" && IsSpace(s[0]) then TrimStart(s[1..]) else s
  }

  function TrimEnd(s: string): string {
    if s != "" && IsSpace(s[|s| - 1]) then TrimEnd(s[..|s| - 1]) else s
  }

  function Trim(s: string): string {
    TrimEnd(TrimStart(s))
  }

  lemma {:induction false} TrimStartDrops(pad: string, s: string)
    requires AllSpace(pad)
    ensures TrimStart(pad + s) == TrimStart(s)
  {
    if pad == "" {
      assert pad + s == s;
    } else {
      assert (pad + s)[1..] == pad[1..] + s;
      TrimStartDrops(pad[1..], s);
    }
  }

  lemma {:induction false} TrimEndDrops(s: string, pad: string)
    requires AllSpace(pad)
    ensures TrimEnd(s + pad) == TrimEnd(s)
  {
    if pad == "" {
      assert s + pad == s;
    } else {
      var t := s + pad;
      assert t[..|t| - 1] == s + pad[..|pad| - 1];
      TrimEndDrops(s, pad[..|pad| - 1]);
    }
  }

  /** Trimming removes exactly the padding around a core that is not padded itself. */
  lemma TrimPadded(left: string, core: string, right: string)
    requires AllSpace(left) && AllSpace(right) && Tight(core)
    ensures Trim(left + core + right) == core
  {
    assert left + core + right == left + (core + right);
    TrimStartDrops(left, core + right);
    if core == "" {
      assert core + right == right + "";
      TrimStartDrops(right, "");
    } else {
      assert (core + right)[0] == core[0];
      TrimEndDrops(core, right);
    }
  }

  lemma {:induction false} TrimStartSplits(s: string) returns (left: string)
    ensures AllSpace(left) && s == left + TrimStart(s)
    ensures TrimStart(s) == "" || !IsSpace(TrimStart(s)[0])
  {
    if s != "" && IsSpace(s[0]) {
      var rest := TrimStartSplits(s[1..]);
      left := [s[0]] + rest;
      assert TrimStart(s) == TrimStart(s[1..]);
      assert s == [s[0]] + s[1..];
    } else {
      left := "";
    }
  }

  lemma {:induction false} TrimEndSplits(s: string) returns (right: string)
    ensures AllSpace(right) && s == TrimEnd(s) + right
    ensures TrimEnd(s) == "" || !IsSpace(TrimEnd(s)[|TrimEnd(s)| - 1])
    ensures TrimEnd(s) != "" ==> TrimEnd(s)[0] == s[0]
  {
    if s != "" && IsSpace(s[|s| - 1]) {
      var rest := TrimEndSplits(s[..|s| - 1]);
      right := rest + [s[|s| - 1]];
      assert s == s[..|s| - 1] + [s[|s| - 1]];
    } else {
      right := "";
    }
  }

  /** Every text is padding, its trimmed core, and padding. */
  lemma TrimSplits(s: string) returns (left: string, right: string)
    ensures AllSpace(left) && AllSpace(right) && Tight(Trim(s))
    ensures s == left + Trim(s) + right
  {
    left := TrimStartSplits(s);
    right := TrimEndSplits(TrimStart(s));
  }

  // ---- splitting and joining ----

  function Split(s: string, sep: char): (parts: seq<string>)
    ensures |parts| >= 1
    ensures forall i :: 0 <= i < |parts| ==> sep !in parts[i]
  {
    if s == "" then [""]
    else
      var rest := Split(s[1..], sep);
      if s[0] == sep then [""] + rest else [[s[0]] + rest[0]] + rest[1..]
  }

  function Join(parts: seq<string>, sep: char): string {
    if |parts| == 0 then ""
    else if |parts| == 1 then parts[0]
    else parts[0] + [sep] + Join(parts[1..], sep)
  }

  predicate Free(parts: seq<string>, sep: char) {
    forall i :: 0 <= i < |parts| ==> sep !in parts[i]
  }

  lemma {:induction false} SplitAtSeparator(a: string, b: string, sep: char)
    ensures Split(a + [sep] + b, sep) == Split(a, sep) + Split(b, sep)
  {
    if a == "" {
      assert a + [sep] + b == [sep] + b;
      SplitOnce(sep, b, sep);
    } else {
      SplitAtSeparator(a[1..], b, sep);
      SplitAfterHead(a[0], a[1..], b, sep);
      assert a == [a[0]] + a[1..];
    }
  }

  lemma SplitAfterHead(c: char, rest: string, b: string, sep: char)
    requires Split(rest + [sep] + b, sep) == Split(rest, sep) + Split(b, sep)
    ensures Split([c] + rest + [sep] + b, sep) == Split([c] + rest, sep) + Split(b, sep)
  {
    SplitOnce(c, rest, sep);
    SplitOnce(c, rest + [sep] + b, sep);
    assert [c] + rest + [sep] + b == [c] + (rest + [sep] + b);
    HeadOfConcat(c, Split(rest, sep), Split(b, sep));
  }

  lemma HeadOfConcat(c: char, x: seq<string>, y: seq<string>)
    requires x != []
    ensures [[c] + (x + y)[0]] + (x + y)[1..] == ([[c] + x[0]] + x[1..]) + y
    ensures [""] + (x + y) == ([""] + x) + y
  {
  }

  lemma SplitOnce(c: char, s: string, sep: char)
    ensures var rest := Split(s, sep);
            Split([c] + s, sep) == if c == sep then [""] + rest else [[c] + rest[0]] + rest[1..]
  {
    assert ([c] + s)[1..] == s;
  }

  lemma {:induction false} SplitFree(s: string, sep: char)
    requires sep !in s
    ensures Split(s, sep) == [s]
  {
    if s != "" {
      SplitFree(s[1..], sep);
      assert s == [s[0]] + s[1..];
    }
  }

  /** Splitting undoes joining. */
  lemma {:induction false} SplitJoin(parts: seq<string>, sep: char)
    requires |parts| >= 1 && Free(parts, sep)
    ensures Split(Join(parts, sep), sep) == parts
  {
    SplitFree(parts[0], sep);
    if |parts| > 1 {
      SplitJoin(parts[1..], sep);
      SplitAtSeparator(parts[0], Join(parts[1..], sep), sep);
    }
  }

  /** Splitting yields the only parts free of the separator that join to the text. */
  lemma {:induction false} SplitIsExact(s: string, sep: char, parts: seq<string>)
    ensures Split(s, sep) == parts <==> |parts| >= 1 && Free(parts, sep) && Join(parts, sep) == s
  {
    JoinSplit(s, sep);
    if |parts| >= 1 && Free(parts, sep) {
      SplitJoin(parts, sep);
    }
  }

  lemma {:induction false} JoinSplit(s: string, sep: char)
    ensures Join(Split(s, sep), sep) == s
  {
    if s != "" {
      var rest := Split(s[1..], sep);
      JoinSplit(s[1..], sep);
      assert s == [s[0]] + s[1..];
      if s[0] == sep {
        assert ([""] + rest)[1..] == rest;
        assert "" + [sep] + Join(rest, sep) == [sep] + Join(rest, sep);
      } else {
        JoinHead(s[0], rest, sep);
      }
    }
  }

  lemma JoinHead(c: char, rest: seq<string>, sep: char)
    requires rest != []
    ensures Join([[c] + rest[0]] + rest[1..], sep) == [c] + Join(rest, sep)
  {
    var longer := [[c] + rest[0]] + rest[1..];
    assert longer[1..] == rest[1..];
    if |rest| > 1 {
      var tail := Join(rest[1..], sep);
      assert [c] + (rest[0] + [sep] + tail) == ([c] + rest[0]) + [sep] + tail;
    }
  }

  lemma {:induction false} JoinMembers(parts: seq<string>, sep: char, c: char)
    ensures c in Join(parts, sep) ==> (c == sep && |parts| > 1) || exists i :: 0 <= i < |parts| && c in parts[i]
  {
    if |parts| > 1 {
      JoinMembers(parts[1..], sep, c);
      if c in Join(parts[1..], sep) && c != sep {
        var i :| 0 <= i < |parts[1..]| && c in parts[1..][i];
        assert c in parts[i + 1];
      }
    }
  }
}

/** Positional numerals in base 10 and base 16. */
module Digits {
  import opened Arith
  import opened JsText

  /** Number.MAX_SAFE_INTEGER. */
  const MAX_SAFE_INTEGER: nat := 9_007_199_254_740_991

  predicate IsDecimal(c: char) { '0' <= c <= '9' }

  predicate IsHex(c: char) { '0' <= c <= '9' || 'a' <= c <= 'f' || 'A' <= c <= 'F' }

  function DigitValue(c: char): (v: nat)
    requires IsHex(c)
    ensures v < 16 && (IsDecimal(c) <==> v < 10)
  {
    if c <= '9' then c as int - '0' as int
    else if c <= 'F' then c as int - 'A' as int + 10
    else c as int - 'a' as int + 10
  }

  lemma DigitTables(c: char)
    ensures IsDecimal(c) <==> c in "0123456789"
    ensures IsHex(c) <==> c in "0123456789abcdef" || c in "ABCDEF"
  {
  }

  /** Number.prototype.toString prints digits above nine in lower case. */
  function DigitChar(d: nat): (c: char)
    requires d < 16
    ensures IsHex(c) && DigitValue(c) == d && !('A' <= c <= 'F')
  {
    if d < 10 then ('0' as int + d) as char else ('a' as int + (d - 10)) as char
  }

  predicate Numeral(s: string, base: nat) {
    forall i :: 0 <= i < |s| ==> IsHex(s[i]) && DigitValue(s[i]) < base
  }

  function ToText(n: nat, base: nat): (s: string)
    requires 2 <= base <= 16
    ensures s != "" && Numeral(s, base)
  {
    if n < base then [DigitChar(n)]
    else
      DivMod(n, base);
      ToText(n / base, base) + [DigitChar(n % base)]
  }

  function FromText(s: string, base: nat): nat
    requires Numeral(s, base)
  {
    if s == "" then 0 else FromText(s[..|s| - 1], base) * base + DigitValue(s[|s| - 1])
  }

  lemma FromTextSnoc(front: string, d: nat, base: nat)
    requires 2 <= base <= 16 && d < base && Numeral(front, base)
    ensures FromText(front + [DigitChar(d)], base) == FromText(front, base) * base + d
  {
    var s := front + [DigitChar(d)];
    assert s[..|s| - 1] == front;
  }

  lemma FromDigit(d: nat, base: nat)
    requires 2 <= base <= 16 && d < base
    ensures FromText([DigitChar(d)], base) == d
  {
    assert [DigitChar(d)] == "" + [DigitChar(d)];
    FromTextSnoc("", d, base);
  }

  /** Numerals are positional: one more digit c multiplies the value by the base and adds the digit,
      counted from '0', 'A' or 'a'. */
  lemma Positional(front: string, c: char, base: nat)
    requires 2 <= base <= 16 && Numeral(front + [c], base)
    ensures Numeral(front, base)
    ensures FromText("", base) == 0
    ensures FromText(front + [c], base) == FromText(front, base) * base +
              (if '0' <= c <= '9' then c as int - 48 else if 'A' <= c <= 'F' then c as int - 55 else c as int - 87)
  {
    var s := front + [c];
    assert s[..|s| - 1] == front && s[|s| - 1] == c;
    forall i | 0 <= i < |front|
      ensures IsHex(front[i]) && DigitValue(front[i]) < base
    {
      assert s[i] == front[i];
    }
  }

  lemma DivMod(n: nat, base: nat)
    requires base >= 2
    ensures (n / base) * base + n % base == n
    ensures n >= base ==> 0 < n / base < n
    ensures n % base < base
  {
    if n >= base {
      MulMono(2, base, n);
      DivBelow(n, base, n);
    }
  }

  lemma {:induction false} FromToText(n: nat, base: nat)
    requires 2 <= base <= 16
    ensures FromText(ToText(n, base), base) == n
  {
    DivMod(n, base);
    if n < base {
      FromDigit(n, base);
    } else {
      FromToText(n / base, base);
      FromTextSnoc(ToText(n / base, base), n % base, base);
    }
  }

  lemma {:induction false} NoLeadingZero(n: nat, base: nat)
    requires 2 <= base <= 16
    ensures n > 0 ==> ToText(n, base)[0] != '0'
    ensures n == 0 ==> ToText(n, base) == "0"
  {
    if n >= base {
      DivMod(n, base);
      NoLeadingZero(n / base, base);
    }
  }

  lemma {:induction false} PositiveText(s: string, base: nat)
    requires 2 <= base <= 16 && Numeral(s, base) && s != "" && s[0] != '0'
    ensures FromText(s, base) > 0
  {
    if |s| == 1 {
      assert FromText(s[..0], base) == 0;
      assert DigitValue(s[0]) > 0;
    } else {
      var front := s[..|s| - 1];
      PositiveText(front, base);
      PositiveProduct(FromText(front, base), base);
    }
  }

  /** A decimal numeral without a leading zero is the one printed for its value. */
  lemma {:induction false} ToFromText(s: string)
    requires Numeral(s, 10) && s != "" && s[0] != '0'
    ensures ToText(FromText(s, 10), 10) == s
  {
    var d := DigitValue(s[|s| - 1]);
    assert DigitChar(d) == s[|s| - 1];
    if |s| == 1 {
      assert FromText(s[..0], 10) == 0;
    } else {
      var front := s[..|s| - 1];
      PositiveText(front, 10);
      ToFromText(front);
      LowDigit(FromText(front, 10), 10, d);
    }
  }

  function Power(base: nat, k: nat): nat {
    if k == 0 then 1 else base * Power(base, k - 1)
  }

  lemma {:induction false} TextLength(n: nat, base: nat, k: nat)
    requires 2 <= base <= 16 && k >= 1 && n < Power(base, k)
    ensures |ToText(n, base)| <= k
  {
    if n >= base {
      OneDigitLess(n, base, k);
      TextLength(n / base, base, k - 1);
    }
  }

  lemma OneDigitLess(n: nat, base: nat, k: nat)
    requires 2 <= base <= 16 && base <= n && k >= 1 && n < Power(base, k)
    ensures n / base < n && n / base < Power(base, k - 1) && k >= 2
    ensures ToText(n, base) == ToText(n / base, base) + [DigitChar(n % base)]
  {
    assert Power(base, 0) == 1;
    DivBelow(n, base, Power(base, k - 1));
    DivMod(n, base);
  }
}
