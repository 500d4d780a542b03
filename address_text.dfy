/**
 * The text forms the address classes of `chen::ip` convert to and from:
 * decimal and hexadecimal numerals, and text split at or joined with a
 * separator. Each rendering is paired with the parser that reads it back.
 */
module AddressText {
  import opened Wrappers

  /** An unsigned 8-bit value (`std::uint8_t`). */
  type Byte = x: int | 0 <= x < 0x100

  /** An unsigned 16-bit value, one group of an IPv6 address. */
  type U16 = x: int | 0 <= x < 0x1_0000

  /** `true` when `c` does not occur in `s`. */
  predicate Free(s: string, c: char)
  {
    forall k :: 0 <= k < |s| ==> s[k] != c
  }

  /* ---------------------------------------------------------------- */
  /* Decimal numerals                                                  */
  /* ---------------------------------------------------------------- */

  predicate IsDecimal(c: char)
  {
    '0' <= c <= '9'
  }

  predicate AllDecimal(s: string)
  {
    forall k :: 0 <= k < |s| ==> IsDecimal(s[k])
  }

  function DecimalDigit(d: nat): (c: char)
    requires d < 10
    ensures IsDecimal(c)
  {
    ('0' as int + d) as char
  }

  /** The decimal numeral of `n`, without leading zeros. */
  function Decimal(n: nat): (s: string)
    ensures |s| > 0 && AllDecimal(s)
  {
    if n < 10 then [DecimalDigit(n)] else Decimal(n / 10) + [DecimalDigit(n % 10)]
  }

  /** The value of a string of decimal digits. */
  function DecimalValue(s: string): nat
    requires AllDecimal(s)
  {
    if s == [] then 0 else DecimalValue(s[..|s| - 1]) * 10 + (s[|s| - 1] as int - '0' as int)
  }

  /** A decimal number: at least one digit and nothing else. */
  function ParseDecimal(s: string): Option<nat>
  {
    if |s| > 0 && AllDecimal(s) then Some(DecimalValue(s)) else None
  }

  /** Reading a decimal numeral back gives the number it was written for. */
  lemma {:induction false} DecimalRoundTrip(n: nat)
    ensures ParseDecimal(Decimal(n)) == Some(n)
  {
    var s := Decimal(n);
    if n >= 10 {
      DecimalRoundTrip(n / 10);
      assert s[..|s| - 1] == Decimal(n / 10);
      assert s[|s| - 1] as int - '0' as int == n % 10;
    } else {
      assert s[..0] == [];
      assert DecimalValue(s) == DecimalValue(s[..0]) * 10 + (s[0] as int - '0' as int);
    }
  }

  /* ---------------------------------------------------------------- */
  /* Hexadecimal numerals                                              */
  /* ---------------------------------------------------------------- */

  predicate IsHex(c: char)
  {
    '0' <= c <= '9' || 'a' <= c <= 'f' || 'A' <= c <= 'F'
  }

  predicate AllHex(s: string)
  {
    forall k :: 0 <= k < |s| ==> IsHex(s[k])
  }

  function HexDigitValue(c: char): nat
    requires IsHex(c)
  {
    if '0' <= c <= '9' then c as int - '0' as int
    else if 'a' <= c <= 'f' then c as int - 'a' as int + 10
    else c as int - 'A' as int + 10
  }

  /** The lower-case hex digit of `d`. */
  function HexDigit(d: nat): (c: char)
    requires d < 16
    ensures IsHex(c) && HexDigitValue(c) == d && c != ':' && c != '.' && c != '/'
  {
    if d < 10 then ('0' as int + d) as char else ('a' as int + d - 10) as char
  }

  /** The value of a string of hex digits. */
  function HexValue(s: string): nat
    requires AllHex(s)
  {
    if s == [] then 0 else HexValue(s[..|s| - 1]) * 16 + HexDigitValue(s[|s| - 1])
  }

  lemma {:induction false} HexValueBound(s: string)
    requires AllHex(s)
    ensures HexValue(s) < Pow16(|s|)
  {
    if s != [] {
      HexValueBound(s[..|s| - 1]);
    }
  }

  function Pow16(n: nat): nat
  {
    if n == 0 then 1 else 16 * Pow16(n - 1)
  }

  /** One group of an IPv6 address: one to four hex digits. */
  function ParseHex(s: string): (r: Option<U16>)
  {
    if 0 < |s| <= 4 && AllHex(s) then
      HexValueBound(s);
      assert Pow16(|s|) <= Pow16(4) by { if |s| < 4 { PowGrows(|s|, 4); } }
      Some(HexValue(s))
    else None
  }

  lemma {:induction false} PowGrows(a: nat, b: nat)
    requires a <= b
    ensures Pow16(a) <= Pow16(b)
    decreases b - a
  {
    if a < b {
      PowGrows(a, b - 1);
    }
  }

  /** A group as four lower-case hex digits, leading zeros kept. */
  function Hex4(g: U16): (s: string)
    ensures |s| == 4 && AllHex(s) && Free(s, ':') && Free(s, '.') && Free(s, '/')
  {
    [HexDigit(g / 0x1000), HexDigit(g / 0x100 % 16), HexDigit(g / 0x10 % 16), HexDigit(g % 16)]
  }

  /** A group in lower-case hex without leading zeros (`0` for zero). */
  function HexShort(g: nat): (s: string)
    ensures |s| > 0 && AllHex(s) && Free(s, ':') && Free(s, '.') && Free(s, '/')
  {
    if g < 16 then [HexDigit(g)] else HexShort(g / 16) + [HexDigit(g % 16)]
  }

  lemma {:induction false} HexShortValue(g: nat)
    ensures HexValue(HexShort(g)) == g
    ensures g < Pow16(|HexShort(g)|)
    ensures |HexShort(g)| > 1 ==> g >= Pow16(|HexShort(g)| - 1)
  {
    if g >= 16 {
      HexShortValue(g / 16);
      var s := HexShort(g);
      assert s[..|s| - 1] == HexShort(g / 16);
    }
  }

  /** Reading a short group back gives the group. */
  lemma HexShortRoundTrip(g: U16)
    ensures ParseHex(HexShort(g)) == Some(g)
  {
    HexShortValue(g);
    var n := |HexShort(g)|;
    if n > 4 {
      PowGrows(4, n - 1);
    }
  }

  /** The value of four hex digits, most significant first. */
  lemma HexValue4(s: string)
    requires |s| == 4 && AllHex(s)
    ensures HexValue(s) == ((HexDigitValue(s[0]) * 16 + HexDigitValue(s[1])) * 16 + HexDigitValue(s[2])) * 16 + HexDigitValue(s[3])
  {
    assert s[..3][..2] == s[..2] && s[..2][..1] == s[..1] && s[..1][..0] == [];
    assert HexValue(s[..1]) == HexDigitValue(s[0]);
    assert HexValue(s[..2]) == HexDigitValue(s[0]) * 16 + HexDigitValue(s[1]);
    assert HexValue(s[..3]) == HexValue(s[..2]) * 16 + HexDigitValue(s[2]);
    assert HexValue(s) == HexValue(s[..3]) * 16 + HexDigitValue(s[3]);
  }

  /** A group is its four hex digits, most significant first. */
  lemma GroupDigits(g: U16)
    ensures g == ((g / 0x1000 * 16 + g / 0x100 % 16) * 16 + g / 0x10 % 16) * 16 + g % 16
  {
    assert g / 0x100 == g / 0x1000 * 16 + g / 0x100 % 16;
    assert g / 0x10 == g / 0x100 * 16 + g / 0x10 % 16;
  }

  /** Reading a four-digit group back gives the group. */
  lemma Hex4RoundTrip(g: U16)
    ensures ParseHex(Hex4(g)) == Some(g)
  {
    HexValue4(Hex4(g));
    GroupDigits(g);
  }

  /* ---------------------------------------------------------------- */
  /* Split and join                                                    */
  /* ---------------------------------------------------------------- */

  /** The parts joined with the separator `c` between them. */
  function Join(parts: seq<string>, c: char): string
  {
    if |parts| == 0 then ""
    else if |parts| == 1 then parts[0]
    else parts[0] + [c] + Join(parts[1..], c)
  }

  /** The text cut at every `c`: always one part more than there are separators. */
  function Split(s: string, c: char): (r: seq<string>)
    ensures |r| > 0
  {
    if s == [] then [""]
    else
      var rest := Split(s[1..], c);
      if s[0] == c then [""] + rest else [[s[0]] + rest[0]] + rest[1..]
  }

  /** A part free of the separator is glued to the first part of what follows it. */
  lemma {:induction false} SplitPrefix(p: string, tail: string, c: char)
    requires Free(p, c)
    ensures Split(p + tail, c) == [p + Split(tail, c)[0]] + Split(tail, c)[1..]
  {
    var t := Split(tail, c);
    if p != [] {
      assert (p + tail)[0] == p[0] != c;
      assert (p + tail)[1..] == p[1..] + tail;
      SplitPrefix(p[1..], tail, c);
      assert [p[0]] + (p[1..] + t[0]) == p + t[0];
    } else {
      assert p + tail == tail && p + t[0] == t[0];
      assert [t[0]] + t[1..] == t;
    }
  }

  /** Splitting joined parts, none of which holds the separator, gives the parts back. */
  lemma {:induction false} SplitJoin(parts: seq<string>, c: char)
    requires |parts| > 0
    requires forall i :: 0 <= i < |parts| ==> Free(parts[i], c)
    ensures Split(Join(parts, c), c) == parts
  {
    if |parts| == 1 {
      SplitPrefix(parts[0], "", c);
      assert parts[0] + "" == parts[0];
    } else {
      var rest := parts[1..];
      SplitJoin(rest, c);
      assert parts[0] + [c] + Join(rest, c) == parts[0] + ([c] + Join(rest, c));
      SplitPrefix(parts[0], [c] + Join(rest, c), c);
      assert ([c] + Join(rest, c))[1..] == Join(rest, c);
      assert parts[0] + "" == parts[0];
      assert [parts[0]] + rest == parts;
    }
  }

  /** A separator `c` occurs in the joined text only between parts. */
  lemma {:induction false} JoinFree(parts: seq<string>, c: char, d: char)
    requires c != d
    requires forall i :: 0 <= i < |parts| ==> Free(parts[i], d)
    ensures Free(Join(parts, c), d)
  {
    if |parts| > 1 {
      JoinFree(parts[1..], c, d);
    }
  }

  /* ---------------------------------------------------------------- */
  /* The first `::`                                                    */
  /* ---------------------------------------------------------------- */

  /** Where two colons in a row start, from `i` on. */
  function DoubleColonFrom(s: string, i: nat): (r: Option<nat>)
    requires i <= |s|
    ensures r.Some? ==> i <= r.value && r.value + 2 <= |s|
    decreases |s| - i
  {
    if i + 1 >= |s| then None
    else if s[i] == ':' && s[i + 1] == ':' then Some(i)
    else DoubleColonFrom(s, i + 1)
  }

  /** No two colons in a row. */
  predicate NoDoubleColon(s: string)
  {
    forall k :: 0 <= k < |s| - 1 ==> !(s[k] == ':' && s[k + 1] == ':')
  }

  /** Parts that are not empty and hold no colon, joined with colons. */
  predicate Groupish(parts: seq<string>)
  {
    forall i :: 0 <= i < |parts| ==> |parts[i]| > 0 && Free(parts[i], ':')
  }

  /** Such parts joined with colons hold no `::`, and neither start nor end with a colon. */
  lemma {:induction false} JoinNoDouble(parts: seq<string>)
    requires Groupish(parts)
    ensures var j := Join(parts, ':');
            NoDoubleColon(j) && (|j| > 0 ==> j[0] != ':' && j[|j| - 1] != ':')
  {
    if |parts| > 1 {
      var rest := parts[1..];
      JoinNoDouble(rest);
      var j := Join(parts, ':');
      var p, r := parts[0], Join(rest, ':');
      assert j == p + [':'] + r;
      assert |r| > 0 by {
        assert |parts[1]| > 0;
        if |rest| > 1 { assert r == rest[0] + [':'] + Join(rest[1..], ':'); }
      }
      forall k | 0 <= k < |j| - 1
        ensures !(j[k] == ':' && j[k + 1] == ':')
      {
        if k < |p| - 1 {
          assert j[k] == p[k];
        } else if k == |p| - 1 {
          assert j[k] == p[k];
        } else if k == |p| {
          assert j[k + 1] == r[0];
        } else {
          assert j[k] == r[k - |p| - 1] && j[k + 1] == r[k - |p|];
        }
      }
      assert j[0] == p[0];
    }
  }

  /** A text with no `::` has none to find. */
  lemma {:induction false} NoDoubleColonFound(s: string, i: nat)
    requires i <= |s| && NoDoubleColon(s)
    ensures DoubleColonFrom(s, i) == None
    decreases |s| - i
  {
    if i + 1 < |s| {
      NoDoubleColonFound(s, i + 1);
    }
  }

  /**
   * In `j + "::" + rest`, where `j` holds no `::` and does not end with a
   * colon, the first `::` is the one after `j`.
   */
  lemma {:induction false} FirstDoubleColon(j: string, rest: string, i: nat)
    requires i <= |j| && NoDoubleColon(j) && (|j| > 0 ==> j[|j| - 1] != ':')
    ensures DoubleColonFrom(j + "::" + rest, i) == Some(|j|)
    decreases |j| - i
  {
    var s := j + "::" + rest;
    if i < |j| {
      assert s[i] == j[i];
      if i + 1 < |j| {
        assert s[i + 1] == j[i + 1];
      }
      FirstDoubleColon(j, rest, i + 1);
    }
  }
}
