/**
 * `chen::ip::address_v4` and `chen::ip::address_v6`: an IPv4 address is a
 * 32-bit integer with a CIDR prefix length, an IPv6 address sixteen bytes
 * with one. Each class converts between its value and its text forms, is
 * reassigned in place by `assign`, and orders its values by address with
 * the prefix length breaking ties.
 */
module IpAddress {
  import opened Wrappers
  import opened AddressText

  /** An unsigned 32-bit value (`std::uint32_t`). */
  type U32 = x: int | 0 <= x < 0x1_0000_0000

  /** The text is not an address of the kind asked for (the source throws). */
  datatype AddressError = InvalidAddress(text: string)

  /* ================================================================ */
  /* IPv4                                                              */
  /* ================================================================ */

  /** The four bytes of an IPv4 address, most significant first. */
  function Octets(a: U32): (b: seq<Byte>)
    ensures |b| == 4
  {
    [a / 0x100_0000, a / 0x1_0000 % 0x100, a / 0x100 % 0x100, a % 0x100]
  }

  /** The integer whose bytes, most significant first, are `b`. */
  function OctetsValue(b: seq<Byte>): nat
    requires |b| == 4
  {
    ((b[0] as int * 0x100 + b[1]) * 0x100 + b[2]) * 0x100 + b[3]
  }

  /** Reading the four bytes back gives the address. */
  lemma OctetsRoundTrip(a: U32)
    ensures OctetsValue(Octets(a)) == a
  {
    var q1, q2, q3 := a / 0x100, a / 0x1_0000, a / 0x100_0000;
    assert a == q1 * 0x100 + a % 0x100;
    assert q1 == q2 * 0x100 + q1 % 0x100;
    assert q2 == q3 * 0x100 + q2 % 0x100;
    assert q1 % 0x100 == a / 0x100 % 0x100;
    assert q2 == q1 / 0x100;
    assert q3 == q2 / 0x100;
  }

  /** `address_v4::toString(addr)`: dotted decimal, four numbers. */
  function V4ToString(a: U32): string
  {
    var b := Octets(a);
    Join([Decimal(b[0]), Decimal(b[1]), Decimal(b[2]), Decimal(b[3])], '.')
  }

  /** `address_v4::toString(addr, cidr)`: the dotted form, a slash and the prefix length. */
  function V4ToStringCidr(a: U32, cidr: Byte): string
  {
    V4ToString(a) + "/" + Decimal(cidr)
  }

  /** Every field a decimal number. */
  function Numbers(fields: seq<string>): (r: Option<seq<nat>>)
    ensures r.Some? ==> |r.value| == |fields|
  {
    if fields == [] then Some([])
    else
      var n :- ParseDecimal(fields[0]);
      var rest :- Numbers(fields[1..]);
      Some([n] + rest)
  }

  /**
   * The address written with one to four numbers: the last number fills
   * all the bytes the earlier ones leave, so "127.1" is 127.0.0.1 and
   * "192.168.1" is 192.168.0.1; each earlier number is one byte.
   */
  function Combine(n: seq<nat>): (r: Option<U32>)
  {
    if |n| == 1 && n[0] < 0x100 then Some(n[0] * 0x100_0000)
    else if |n| == 2 && n[0] < 0x100 && n[1] < 0x100_0000 then
      Some(n[0] * 0x100_0000 + n[1])
    else if |n| == 3 && n[0] < 0x100 && n[1] < 0x100 && n[2] < 0x1_0000 then
      Some(n[0] * 0x100_0000 + n[1] * 0x1_0000 + n[2])
    else if |n| == 4 && n[0] < 0x100 && n[1] < 0x100 && n[2] < 0x100 && n[3] < 0x100 then
      Some(OctetsValue([n[0], n[1], n[2], n[3]]))
    else None
  }

  /**
   * `address_v4::toInteger(addr, cidr)`: the address of a dotted text and
   * the prefix length after an optional slash, 32 when there is none.
   */
  function V4ToIntegerCidr(text: string): (r: Result<(U32, Byte), AddressError>)
    ensures r.Ok? ==> r.value.1 <= 32
  {
    var cut := Split(text, '/');
    var n := Numbers(Split(cut[0], '.'));
    var a := if n.Some? then Combine(n.value) else None;
    var cidr := if |cut| == 1 then Some(32) else ParseDecimal(cut[1]);
    if |cut| > 2 || a.None? || cidr.None? || cidr.value > 32 then Err(InvalidAddress(text))
    else Ok((a.value, cidr.value))
  }

  /** `address_v4::toInteger(addr)`: the address alone. */
  function V4ToInteger(text: string): Result<U32, AddressError>
  {
    var p :- V4ToIntegerCidr(text);
    Ok(p.0)
  }

  /** Fields that are each the numeral of a number are read as those numbers. */
  lemma {:induction false} NumbersOf(fields: seq<string>, ns: seq<nat>)
    requires |fields| == |ns|
    requires forall i :: 0 <= i < |fields| ==> ParseDecimal(fields[i]) == Some(ns[i])
    ensures Numbers(fields) == Some(ns)
  {
    if fields != [] {
      NumbersOf(fields[1..], ns[1..]);
      assert [ns[0]] + ns[1..] == ns;
    }
  }

  /** A decimal numeral holds no separator. */
  lemma DecimalFree(n: nat, c: char)
    requires !IsDecimal(c)
    ensures Free(Decimal(n), c)
  {
  }

  /** A text free of `c` is a single field when cut at `c`. */
  lemma SplitNone(s: string, c: char)
    requires Free(s, c)
    ensures Split(s, c) == [s]
  {
    SplitJoin([s], c);
  }

  /** The dotted form is cut into its four numerals, and holds no slash. */
  lemma V4Fields(a: U32)
    ensures var b := Octets(a);
            Split(V4ToString(a), '.') == [Decimal(b[0]), Decimal(b[1]), Decimal(b[2]), Decimal(b[3])]
    ensures Free(V4ToString(a), '/')
  {
    var b := Octets(a);
    var parts := [Decimal(b[0]), Decimal(b[1]), Decimal(b[2]), Decimal(b[3])];
    forall i | 0 <= i < 4
      ensures Free(parts[i], '.') && Free(parts[i], '/')
    {
      DecimalFree(b[i], '.');
      DecimalFree(b[i], '/');
    }
    SplitJoin(parts, '.');
    JoinFree(parts, '.', '/');
  }

  /** The dotted form of an address is read back as that address. */
  lemma V4Parts(a: U32)
    ensures var n := Numbers(Split(V4ToString(a), '.'));
            n.Some? && Combine(n.value) == Some(a)
  {
    var b := Octets(a);
    V4Fields(a);
    DecimalRoundTrip(b[0]);
    DecimalRoundTrip(b[1]);
    DecimalRoundTrip(b[2]);
    DecimalRoundTrip(b[3]);
    NumbersOf([Decimal(b[0]), Decimal(b[1]), Decimal(b[2]), Decimal(b[3])], b);
    assert [b[0], b[1], b[2], b[3]] == b;
    OctetsRoundTrip(a);
  }

  /**
   * `toInteger` inverts `toString`: the dotted form is read back as the
   * same address with the default prefix 32, and the CIDR notation as the
   * same address and prefix.
   */
  lemma V4RoundTrip(a: U32, cidr: Byte)
    requires cidr <= 32
    ensures V4ToIntegerCidr(V4ToString(a)) == Ok((a, 32))
    ensures V4ToInteger(V4ToString(a)) == Ok(a)
    ensures V4ToIntegerCidr(V4ToStringCidr(a, cidr)) == Ok((a, cidr))
  {
    var s := V4ToString(a);
    V4Fields(a);
    V4Parts(a);
    SplitNone(s, '/');
    DecimalFree(cidr, '/');
    SplitJoin([s, Decimal(cidr)], '/');
    assert Join([s, Decimal(cidr)], '/') == V4ToStringCidr(a, cidr);
    DecimalRoundTrip(cidr);
  }

  /** The decimal numerals of some numbers. */
  function Numerals(ns: seq<nat>): (r: seq<string>)
    ensures |r| == |ns|
  {
    seq(|ns|, i requires 0 <= i < |ns| => Decimal(ns[i]))
  }

  /**
   * Every shorthand is read: one to four numbers that `Combine` accepts,
   * written in decimal and joined with dots, are read as the address they
   * combine to, with prefix 32.
   */
  lemma V4Shorthand(ns: seq<nat>, a: U32)
    requires 1 <= |ns| && Combine(ns) == Some(a)
    ensures V4ToIntegerCidr(Join(Numerals(ns), '.')) == Ok((a, 32))
  {
    var parts := Numerals(ns);
    forall i | 0 <= i < |ns|
      ensures Free(parts[i], '.') && Free(parts[i], '/') && ParseDecimal(parts[i]) == Some(ns[i])
    {
      DecimalFree(ns[i], '.');
      DecimalFree(ns[i], '/');
      DecimalRoundTrip(ns[i]);
    }
    SplitJoin(parts, '.');
    JoinFree(parts, '.', '/');
    NumbersOf(parts, ns);
    SplitNone(Join(parts, '.'), '/');
  }

  /** The numerals the documented examples use. */
  lemma SmallNumerals()
    ensures Decimal(0) == "0" && Decimal(1) == "1" && Decimal(8) == "8"
    ensures Decimal(127) == "127" && Decimal(168) == "168" && Decimal(192) == "192"
  {
    assert Decimal(12) == "12" by { assert Decimal(12) == Decimal(1) + [DecimalDigit(2)]; }
    assert Decimal(16) == "16" by { assert Decimal(16) == Decimal(1) + [DecimalDigit(6)]; }
    assert Decimal(19) == "19" by { assert Decimal(19) == Decimal(1) + [DecimalDigit(9)]; }
    assert Decimal(127) == Decimal(12) + [DecimalDigit(7)];
    assert Decimal(168) == Decimal(16) + [DecimalDigit(8)];
    assert Decimal(192) == Decimal(19) + [DecimalDigit(2)];
  }

  /** The documented integer form: 0x7F000001 is "127.0.0.1", and "127.0.0.1/8" has prefix 8. */
  lemma V4LoopbackExample()
    ensures V4ToString(0x7F00_0001) == "127.0.0.1"
    ensures V4ToInteger("127.0.0.1") == Ok(0x7F00_0001)
    ensures V4ToIntegerCidr("127.0.0.1/8") == Ok((0x7F00_0001, 8))
  {
    assert V4ToString(0x7F00_0001) == "127.0.0.1" by {
      assert Octets(0x7F00_0001) == [127, 0, 0, 1];
      SmallNumerals();
      assert Join(["0", "1"], '.') == "0.1" by { assert ["0", "1"][1..] == ["1"]; }
      assert Join(["0", "0", "1"], '.') == "0.0.1" by { assert ["0", "0", "1"][1..] == ["0", "1"]; }
      assert ["127", "0", "0", "1"][1..] == ["0", "0", "1"];
    }
    assert V4ToStringCidr(0x7F00_0001, 8) == "127.0.0.1/8" by { SmallNumerals(); }
    V4RoundTrip(0x7F00_0001, 8);
  }

  /** The shorthand "127" is 127.0.0.0. */
  lemma V4OneNumberExample()
    ensures V4ToIntegerCidr("127") == Ok((0x7F00_0000, 32))
  {
    assert Join(Numerals([127]), '.') == "127" by { SmallNumerals(); }
    V4Shorthand([127], 0x7F00_0000);
  }

  /** The shorthand "127.1" is 127.0.0.1. */
  lemma V4TwoNumbersExample()
    ensures V4ToIntegerCidr("127.1") == Ok((0x7F00_0001, 32))
  {
    assert Join(Numerals([127, 1]), '.') == "127.1" by {
      SmallNumerals();
      assert Numerals([127, 1]) == ["127", "1"];
      assert ["127", "1"][1..] == ["1"];
    }
    V4Shorthand([127, 1], 0x7F00_0001);
  }

  /** The shorthand "192.168.1" is 192.168.0.1. */
  lemma V4ThreeNumbersExample()
    ensures V4ToIntegerCidr("192.168.1") == Ok((0xC0A8_0001, 32))
  {
    assert Join(Numerals([192, 168, 1]), '.') == "192.168.1" by {
      SmallNumerals();
      assert Numerals([192, 168, 1]) == ["192", "168", "1"];
      assert Join(["168", "1"], '.') == "168.1" by { assert ["168", "1"][1..] == ["1"]; }
      assert ["192", "168", "1"][1..] == ["168", "1"];
    }
    V4Shorthand([192, 168, 1], 0xC0A8_0001);
  }

  /**
   * `address_v4`: an address and its CIDR prefix length, both replaced in
   * place by `assign`.
   */
  class AddressV4 {
    var addr: U32
    var cidr: Byte

    /** `address_v4()`: the member initialisers, address 0 and prefix 0. */
    constructor ()
      ensures addr == 0 && cidr == 0
    {
      addr, cidr := 0, 0;
    }

    /** `address_v4(addr)`: an integer address with the default prefix 32. */
    constructor FromInteger(a: U32)
      ensures addr == a && cidr == 32
    {
      addr, cidr := a, 32;
    }

    /** `address_v4(addr, cidr)`. */
    constructor FromIntegerCidr(a: U32, c: Byte)
      ensures addr == a && cidr == c
    {
      addr, cidr := a, c;
    }

    /**
     * `assign(addr)` with a text: the address and prefix `toInteger` reads;
     * on malformed text an error and nothing changes.
     */
    method Assign(text: string) returns (r: Result<(), AddressError>)
      modifies this
      ensures V4ToIntegerCidr(text).Ok? ==>
                r == Ok(()) && addr == V4ToIntegerCidr(text).value.0 && cidr == V4ToIntegerCidr(text).value.1
      ensures V4ToIntegerCidr(text).Err? ==>
                r == Err(V4ToIntegerCidr(text).error) && addr == old(addr) && cidr == old(cidr)
    {
      var p := V4ToIntegerCidr(text);
      if p.Err? {
        return Err(p.error);
      }
      addr, cidr := p.value.0, p.value.1;
      r := Ok(());
    }

    /** `assign(addr, cidr)` with a text: the address `toInteger` reads and the given prefix. */
    method AssignCidr(text: string, c: Byte) returns (r: Result<(), AddressError>)
      modifies this
      ensures V4ToInteger(text).Ok? ==> r == Ok(()) && addr == V4ToInteger(text).value && cidr == c
      ensures V4ToInteger(text).Err? ==>
                r == Err(V4ToInteger(text).error) && addr == old(addr) && cidr == old(cidr)
    {
      var a := V4ToInteger(text);
      if a.Err? {
        return Err(a.error);
      }
      addr, cidr := a.value, c;
      r := Ok(());
    }

    /** `assign(addr)` with an integer: the default prefix 32. */
    method AssignInteger(a: U32)
      modifies this
      ensures addr == a && cidr == 32
    {
      addr, cidr := a, 32;
    }

    /** `assign(addr, cidr)` with an integer. */
    method AssignIntegerCidr(a: U32, c: Byte)
      modifies this
      ensures addr == a && cidr == c
    {
      addr, cidr := a, c;
    }

    /** `str()`: the dotted form, which reads back as this address with prefix 32. */
    method Str() returns (s: string)
      ensures s == V4ToString(addr)
      ensures V4ToIntegerCidr(s) == Ok((addr, 32))
    {
      s := V4ToString(addr);
      V4RoundTrip(addr, 0);
    }

    /** `bytes()`: four bytes, most significant first, whose value is the address. */
    method Bytes() returns (b: seq<Byte>)
      ensures |b| == 4 && OctetsValue(b) == addr
      ensures b == Octets(addr)
    {
      b := Octets(addr);
      OctetsRoundTrip(addr);
    }

    /** `notation()`: the CIDR notation, which reads back as this address and prefix. */
    method Notation() returns (s: string)
      ensures s == V4ToStringCidr(addr, cidr)
      ensures cidr <= 32 ==> V4ToIntegerCidr(s) == Ok((addr, cidr))
    {
      s := V4ToStringCidr(addr, cidr);
      if cidr <= 32 {
        V4RoundTrip(addr, cidr);
      }
    }

    /** `operator==`: the same address and the same prefix length. */
    predicate Equal(o: AddressV4)
      reads this, o
    {
      addr == o.addr && cidr == o.cidr
    }

    /** `operator<`: by address; by prefix length when the addresses are equal. */
    predicate Less(o: AddressV4)
      reads this, o
    {
      if addr == o.addr then cidr < o.cidr else addr < o.addr
    }

    /** `operator<=`: by address; by prefix length when the addresses are equal. */
    predicate LessEq(o: AddressV4)
      reads this, o
    {
      if addr == o.addr then cidr <= o.cidr else addr < o.addr
    }
  }

  /**
   * `address_v4(addr)` with a text: a new address, or the error the
   * constructor throws.
   */
  method ParseV4(text: string) returns (r: Result<AddressV4, AddressError>)
    ensures r.Ok? <==> V4ToIntegerCidr(text).Ok?
    ensures r.Ok? ==> fresh(r.value) && r.value.addr == V4ToIntegerCidr(text).value.0
                      && r.value.cidr == V4ToIntegerCidr(text).value.1
    ensures r.Err? ==> r.error == V4ToIntegerCidr(text).error
  {
    var p := V4ToIntegerCidr(text);
    if p.Err? {
      return Err(p.error);
    }
    var a := new AddressV4.FromIntegerCidr(p.value.0, p.value.1);
    r := Ok(a);
  }

  /** The IPv4 order is strict and total: exactly one of less, equal and greater holds. */
  lemma V4Trichotomy(a: AddressV4, b: AddressV4)
    ensures a.Less(b) || a.Equal(b) || b.Less(a)
    ensures !(a.Less(b) && a.Equal(b)) && !(a.Less(b) && b.Less(a)) && !(a.Equal(b) && b.Less(a))
  {
  }

  /** `<` is transitive. */
  lemma V4LessTransitive(a: AddressV4, b: AddressV4, c: AddressV4)
    requires a.Less(b) && b.Less(c)
    ensures a.Less(c)
  {
  }

  /** `<=` is `<` or `==`; the prefix length decides only between equal addresses. */
  lemma V4LessEqIff(a: AddressV4, b: AddressV4)
    ensures a.LessEq(b) <==> a.Less(b) || a.Equal(b)
    ensures a.addr != b.addr ==> (a.Less(b) <==> a.addr < b.addr)
  {
  }

  /* ================================================================ */
  /* IPv6                                                              */
  /* ================================================================ */

  /** The eight 16-bit groups of sixteen bytes, most significant first. */
  function Groups(b: seq<Byte>): (g: seq<U16>)
    requires |b| == 16
    ensures |g| == 8
  {
    seq(8, i requires 0 <= i < 8 => b[2 * i] as int * 0x100 + b[2 * i + 1])
  }

  /** The sixteen bytes of eight groups, each group's high byte first. */
  function GroupBytes(g: seq<U16>): (b: seq<Byte>)
    requires |g| == 8
    ensures |b| == 16
  {
    seq(16, i requires 0 <= i < 16 => if i % 2 == 0 then g[i / 2] / 0x100 else g[i / 2] % 0x100)
  }

  /** A group made of a high and a low byte splits back into them. */
  lemma SplitGroup(hi: Byte, lo: Byte)
    ensures (hi as int * 0x100 + lo) / 0x100 == hi && (hi as int * 0x100 + lo) % 0x100 == lo
  {
  }

  /** Bytes and groups are two views of the same address. */
  lemma GroupsRoundTrip(b: seq<Byte>, g: seq<U16>)
    requires |b| == 16 && |g| == 8
    ensures GroupBytes(Groups(b)) == b
    ensures Groups(GroupBytes(g)) == g
  {
    forall i | 0 <= i < 16
      ensures GroupBytes(Groups(b))[i] == b[i]
    {
      SplitGroup(b[i / 2 * 2], b[i / 2 * 2 + 1]);
    }
  }

  /** All zeros. */
  function Zeros(n: nat): (z: seq<U16>)
    ensures |z| == n && forall k :: 0 <= k < n ==> z[k] == 0
  {
    seq(n, _ => 0)
  }

  /** Each group as four hex digits. */
  function Hex4s(g: seq<U16>): (r: seq<string>)
    ensures |r| == |g|
  {
    seq(|g|, i requires 0 <= i < |g| => Hex4(g[i]))
  }

  /** Each group in hex without leading zeros. */
  function Shorts(g: seq<U16>): (r: seq<string>)
    ensures |r| == |g|
  {
    seq(|g|, i requires 0 <= i < |g| => HexShort(g[i]))
  }

  /** `address_v6::toExpanded`: the eight groups, four hex digits each, joined with colons. */
  function ToExpanded(b: seq<Byte>): string
    requires |b| == 16
  {
    Join(Hex4s(Groups(b)), ':')
  }

  /** `address_v6::toSuppressed`: the eight groups without leading zeros, joined with colons. */
  function ToSuppressed(b: seq<Byte>): string
    requires |b| == 16
  {
    Join(Shorts(Groups(b)), ':')
  }

  /** The number of zero groups from `i` up to the first non-zero one. */
  function ZeroRun(g: seq<U16>, i: nat): (n: nat)
    requires i <= |g|
    ensures i + n <= |g|
    decreases |g| - i
  {
    if i < |g| && g[i] == 0 then 1 + ZeroRun(g, i + 1) else 0
  }

  /**
   * The first longest run of zero groups at or after `i`, given the start
   * and length of the longest one before `i`.
   */
  function LongestFrom(g: seq<U16>, i: nat, start: nat, len: nat): (r: (nat, nat))
    requires i <= |g| && start + len <= |g|
    ensures r.0 + r.1 <= |g|
    decreases |g| - i
  {
    if i == |g| then (start, len)
    else if ZeroRun(g, i) > len then LongestFrom(g, i + 1, i, ZeroRun(g, i))
    else LongestFrom(g, i + 1, start, len)
  }

  /** The start and length of the first longest run of zero groups. */
  function LongestZeros(g: seq<U16>): (r: (nat, nat))
    ensures r.0 + r.1 <= |g|
  {
    LongestFrom(g, 0, 0, 0)
  }

  /**
   * `address_v6::toCompressed`: the suppressed form with the first longest
   * run of two or more zero groups replaced by `::`, as section 4.2 of
   * RFC 5952 recommends.
   */
  function ToCompressed(b: seq<Byte>): string
    requires |b| == 16
  {
    var g := Groups(b);
    var (s, n) := LongestZeros(g);
    if n < 2 then Join(Shorts(g), ':')
    else Join(Shorts(g[..s]), ':') + "::" + Join(Shorts(g[s + n..]), ':')
  }

  /** `address_v6::toString(addr, cidr)`: the compressed form, a slash and the prefix length. */
  function V6ToString(b: seq<Byte>, cidr: Byte): string
    requires |b| == 16
  {
    ToCompressed(b) + "/" + Decimal(cidr)
  }

  /** One byte written in decimal. */
  function Octet(s: string): (r: Option<Byte>)
  {
    var n :- ParseDecimal(s);
    if n < 0x100 then Some(n) else None
  }

  /** A dotted quad ending an IPv6 text, as in `::192.168.0.1`: the last two groups. */
  function QuadGroups(field: string): (r: Option<seq<U16>>)
    ensures r.Some? ==> |r.value| == 2
  {
    var parts := Split(field, '.');
    if |parts| != 4 then None
    else
      var a :- Octet(parts[0]);
      var b :- Octet(parts[1]);
      var c :- Octet(parts[2]);
      var d :- Octet(parts[3]);
      Some([a as int * 0x100 + b, c as int * 0x100 + d])
  }

  /**
   * Colon-separated fields, each one to four hex digits; when `last` holds,
   * the final field may instead be a dotted quad.
   */
  function ParseFields(fields: seq<string>, last: bool): (r: Option<seq<U16>>)
  {
    if fields == [] then Some([])
    else if |fields| == 1 && last && !Free(fields[0], '.') then QuadGroups(fields[0])
    else
      var g :- ParseHex(fields[0]);
      var rest :- ParseFields(fields[1..], last);
      Some([g] + rest)
  }

  /** One side of a `::`: no groups when empty. */
  function Side(text: string, last: bool): Option<seq<U16>>
  {
    if text == "" then Some([]) else ParseFields(Split(text, ':'), last)
  }

  /**
   * The eight groups of an IPv6 text: eight fields, or the fields before
   * and after the first `::` with zero groups filling at least one place
   * between them.
   */
  function ParseGroups(body: string): (r: Option<seq<U16>>)
    ensures r.Some? ==> |r.value| == 8
  {
    match DoubleColonFrom(body, 0)
    case None =>
      var g :- ParseFields(Split(body, ':'), true);
      if |g| == 8 then Some(g) else None
    case Some(i) =>
      var l :- Side(body[..i], false);
      var r :- Side(body[i + 2..], true);
      if |l| + |r| <= 7 then Some(l + Zeros(8 - |l| - |r|) + r) else None
  }

  /**
   * `address_v6::toBytes(addr, cidr)`: the bytes of an IPv6 text and the
   * prefix length after an optional slash, 128 when there is none.
   */
  function V6ToBytes(text: string): (r: Result<(seq<Byte>, Byte), AddressError>)
    ensures r.Ok? ==> |r.value.0| == 16 && r.value.1 <= 128
  {
    var cut := Split(text, '/');
    var g := ParseGroups(cut[0]);
    var cidr := if |cut| == 1 then Some(128) else ParseDecimal(cut[1]);
    if |cut| > 2 || g.None? || cidr.None? || cidr.value > 128 then Err(InvalidAddress(text))
    else Ok((GroupBytes(g.value), cidr.value))
  }

  /* ---------------------------------------------------------------- */
  /* Reading the renderings back                                       */
  /* ---------------------------------------------------------------- */

  /** Fields that are each a group in hex, without dots, are read as those groups. */
  lemma {:induction false} FieldsOf(fields: seq<string>, gs: seq<U16>, last: bool)
    requires |fields| == |gs|
    requires forall i :: 0 <= i < |fields| ==> Free(fields[i], '.') && ParseHex(fields[i]) == Some(gs[i])
    ensures ParseFields(fields, last) == Some(gs)
  {
    if fields != [] {
      FieldsOf(fields[1..], gs[1..], last);
      assert [gs[0]] + gs[1..] == gs;
    }
  }

  /** Groups in short hex, joined with colons, are read back as one side of a `::`. */
  lemma ShortSide(gs: seq<U16>, last: bool)
    ensures Side(Join(Shorts(gs), ':'), last) == Some(gs)
    ensures Free(Join(Shorts(gs), ':'), '/')
  {
    var parts := Shorts(gs);
    forall i | 0 <= i < |gs|
      ensures Free(parts[i], '.') && ParseHex(parts[i]) == Some(gs[i])
    {
      HexShortRoundTrip(gs[i]);
    }
    JoinFree(parts, ':', '/');
    if gs != [] {
      var j := Join(parts, ':');
      assert |j| > 0 by {
        if |parts| > 1 { assert j == parts[0] + [':'] + Join(parts[1..], ':'); }
      }
      SplitJoin(parts, ':');
      FieldsOf(parts, gs, last);
    }
  }

  /** A body without `::` made of eight groups is read as those groups. */
  lemma PlainGroups(parts: seq<string>, g: seq<U16>)
    requires |parts| == 8 && |g| == 8 && Groupish(parts)
    requires forall i :: 0 <= i < 8 ==> Free(parts[i], '.') && ParseHex(parts[i]) == Some(g[i])
    ensures ParseGroups(Join(parts, ':')) == Some(g)
  {
    JoinNoDouble(parts);
    NoDoubleColonFound(Join(parts, ':'), 0);
    SplitJoin(parts, ':');
    FieldsOf(parts, g, true);
  }

  /** A body read as groups, with or without a prefix length, is read as their bytes. */
  lemma BodyRoundTrip(body: string, b: seq<Byte>, cidr: Byte)
    requires |b| == 16 && Free(body, '/') && ParseGroups(body) == Some(Groups(b)) && cidr <= 128
    ensures V6ToBytes(body) == Ok((b, 128))
    ensures V6ToBytes(body + "/" + Decimal(cidr)) == Ok((b, cidr))
  {
    GroupsRoundTrip(b, Groups(b));
    SplitNone(body, '/');
    DecimalFree(cidr, '/');
    SplitJoin([body, Decimal(cidr)], '/');
    assert Join([body, Decimal(cidr)], '/') == body + "/" + Decimal(cidr);
    DecimalRoundTrip(cidr);
  }

  /** The expanded form is read back as the same address, with prefix 128. */
  lemma ExpandedRoundTrip(b: seq<Byte>)
    requires |b| == 16
    ensures V6ToBytes(ToExpanded(b)) == Ok((b, 128))
  {
    var g := Groups(b);
    var parts := Hex4s(g);
    forall i | 0 <= i < 8
      ensures Free(parts[i], '.') && ParseHex(parts[i]) == Some(g[i])
    {
      Hex4RoundTrip(g[i]);
    }
    PlainGroups(parts, g);
    JoinFree(parts, ':', '/');
    BodyRoundTrip(ToExpanded(b), b, 0);
  }

  /** The suppressed form of eight groups is read back as those groups. */
  lemma SuppressedGroups(g: seq<U16>)
    requires |g| == 8
    ensures ParseGroups(Join(Shorts(g), ':')) == Some(g)
  {
    var parts := Shorts(g);
    forall i | 0 <= i < 8
      ensures Free(parts[i], '.') && ParseHex(parts[i]) == Some(g[i])
    {
      HexShortRoundTrip(g[i]);
    }
    PlainGroups(parts, g);
  }

  /** The suppressed form is read back as the same address, with prefix 128. */
  lemma SuppressedRoundTrip(b: seq<Byte>)
    requires |b| == 16
    ensures V6ToBytes(ToSuppressed(b)) == Ok((b, 128))
  {
    SuppressedGroups(Groups(b));
    ShortSide(Groups(b), true);
    BodyRoundTrip(ToSuppressed(b), b, 0);
  }

  /** Every group in `[i, j)` is zero. */
  predicate ZeroSpan(g: seq<U16>, i: nat, j: nat)
    requires i <= j <= |g|
  {
    forall k :: i <= k < j ==> g[k] == 0
  }

  /** A run of zero groups from `i` to `j` continues with the run at `j`. */
  lemma {:induction false} ZeroRunShift(g: seq<U16>, i: nat, j: nat)
    requires i <= j <= |g| && ZeroSpan(g, i, j)
    ensures ZeroRun(g, i) == (j - i) + ZeroRun(g, j)
    decreases j - i
  {
    if i < j {
      ZeroRunShift(g, i + 1, j);
    }
  }

  /** The run counted by `ZeroRun` is made of zero groups. */
  lemma {:induction false} ZeroRunZeros(g: seq<U16>, i: nat)
    requires i <= |g|
    ensures ZeroSpan(g, i, i + ZeroRun(g, i))
    decreases |g| - i
  {
    if i < |g| && g[i] == 0 {
      ZeroRunZeros(g, i + 1);
    }
  }

  /**
   * `LongestFrom` keeps the longest run seen so far: the run it returns is
   * made of zero groups, no run is longer, and every run that starts before
   * it is shorter.
   */
  lemma {:induction false} LongestFromSpec(g: seq<U16>, i: nat, start: nat, len: nat)
    requires i <= |g| && start + len <= |g| && start <= i
    requires len <= ZeroRun(g, start)
    requires forall j :: 0 <= j < i ==> ZeroRun(g, j) <= len
    requires forall j :: 0 <= j < start ==> ZeroRun(g, j) < len
    ensures var r := LongestFrom(g, i, start, len);
            r.1 <= ZeroRun(g, r.0)
            && (forall j :: 0 <= j < |g| ==> ZeroRun(g, j) <= r.1)
            && (forall j :: 0 <= j < r.0 ==> ZeroRun(g, j) < r.1)
    decreases |g| - i
  {
    if i < |g| {
      if ZeroRun(g, i) > len {
        LongestFromSpec(g, i + 1, i, ZeroRun(g, i));
      } else {
        LongestFromSpec(g, i + 1, start, len);
      }
    }
  }

  /**
   * The run `toCompressed` replaces is all zero groups, the longest such
   * run, and the first of the longest (section 4.2.3 of RFC 5952).
   */
  lemma LongestZerosSpec(g: seq<U16>)
    ensures var (s, n) := LongestZeros(g);
            ZeroSpan(g, s, s + n)
            && (forall j :: 0 <= j < |g| ==> ZeroRun(g, j) <= n)
            && (forall j :: 0 <= j < s ==> ZeroRun(g, j) < n)
  {
    LongestFromSpec(g, 0, 0, 0);
    var (s, n) := LongestZeros(g);
    ZeroRunZeros(g, s);
  }

  /**
   * Groups with a run of zeros at `[s, s + n)` written as the groups before
   * it, `::` and the groups after it, are read back as the same groups.
   */
  lemma CompressedSides(g: seq<U16>, s: nat, n: nat)
    requires |g| == 8 && s + n <= 8 && n >= 2 && ZeroSpan(g, s, s + n)
    ensures var body := Join(Shorts(g[..s]), ':') + "::" + Join(Shorts(g[s + n..]), ':');
            ParseGroups(body) == Some(g) && Free(body, '/')
  {
    var left, right := Shorts(g[..s]), Shorts(g[s + n..]);
    var jl, jr := Join(left, ':'), Join(right, ':');
    var body := jl + "::" + jr;
    JoinNoDouble(left);
    FirstDoubleColon(jl, jr, 0);
    assert body[..|jl|] == jl && body[|jl| + 2..] == jr;
    ShortSide(g[..s], false);
    ShortSide(g[s + n..], true);
    assert Side(body[..|jl|], false) == Some(g[..s]);
    assert Side(body[|jl| + 2..], true) == Some(g[s + n..]);
    var joined := g[..s] + Zeros(n) + g[s + n..];
    assert |joined| == 8;
    forall k | 0 <= k < 8
      ensures joined[k] == g[k]
    {
      if s <= k < s + n {
        assert joined[k] == 0;
      }
    }
    assert joined == g;
    assert ParseGroups(body) == Some(joined);
  }

  /** The compressed form of eight groups is read back as those groups, and holds no slash. */
  lemma CompressedGroups(b: seq<Byte>)
    requires |b| == 16
    ensures ParseGroups(ToCompressed(b)) == Some(Groups(b))
    ensures Free(ToCompressed(b), '/')
  {
    var g := Groups(b);
    var (s, n) := LongestZeros(g);
    if n < 2 {
      SuppressedGroups(g);
      ShortSide(g, true);
    } else {
      LongestZerosSpec(g);
      CompressedSides(g, s, n);
    }
  }

  /** The compressed form is read back as the same address, with prefix 128. */
  lemma CompressedRoundTrip(b: seq<Byte>, cidr: Byte)
    requires |b| == 16 && cidr <= 128
    ensures V6ToBytes(ToCompressed(b)) == Ok((b, 128))
    ensures V6ToBytes(V6ToString(b, cidr)) == Ok((b, cidr))
  {
    CompressedGroups(b);
    BodyRoundTrip(ToCompressed(b), b, cidr);
  }

  /* ---------------------------------------------------------------- */
  /* Special addresses (section 2.4 of RFC 4291)                       */
  /* ---------------------------------------------------------------- */

  /** `isUnspecified`: `::`, all bits zero (section 2.5.2 of RFC 4291). */
  predicate IsUnspecified(b: seq<Byte>)
    requires |b| == 16
  {
    forall k :: 0 <= k < 16 ==> b[k] == 0
  }

  /** `isLoopback`: `::1` (section 2.5.3 of RFC 4291). */
  predicate IsLoopback(b: seq<Byte>)
    requires |b| == 16
  {
    (forall k :: 0 <= k < 15 ==> b[k] == 0) && b[15] == 1
  }

  /** `isGlobalUnicast`: the block 2000::/3, the only one delegated so far. */
  predicate IsGlobalUnicast(b: seq<Byte>)
    requires |b| == 16
  {
    b[0] / 0x20 == 1
  }

  /** `isLinkLocalUnicast`: fe80::/10 (section 2.5.6 of RFC 4291). */
  predicate IsLinkLocalUnicast(b: seq<Byte>)
    requires |b| == 16
  {
    b[0] == 0xfe && b[1] / 0x40 == 2
  }

  /** `isSiteLocalUnicast`: fec0::/10 (section 2.5.7 of RFC 4291). */
  predicate IsSiteLocalUnicast(b: seq<Byte>)
    requires |b| == 16
  {
    b[0] == 0xfe && b[1] / 0x40 == 3
  }

  /** `isIPv4Compatible`: 96 zero bits, then an IPv4 address (section 2.5.5.1 of RFC 4291). */
  predicate IsIPv4Compatible(b: seq<Byte>)
    requires |b| == 16
  {
    forall k :: 0 <= k < 12 ==> b[k] == 0
  }

  /** `isIPv4Mapped`: 80 zero bits, 16 one bits, then an IPv4 address (section 2.5.5.2 of RFC 4291). */
  predicate IsIPv4Mapped(b: seq<Byte>)
    requires |b| == 16
  {
    (forall k :: 0 <= k < 10 ==> b[k] == 0) && b[10] == 0xff && b[11] == 0xff
  }

  /** `isMulticast`: ff00::/8 (section 2.7 of RFC 4291). */
  predicate IsMulticast(b: seq<Byte>)
    requires |b| == 16
  {
    b[0] == 0xff
  }

  /** `isIPv4EmbeddedWellKnown`: the NAT64 prefix 64:ff9b::/96 (section 2.1 of RFC 6052). */
  predicate IsIPv4EmbeddedWellKnown(b: seq<Byte>)
    requires |b| == 16
  {
    b[0] == 0 && b[1] == 0x64 && b[2] == 0xff && b[3] == 0x9b
    && forall k :: 4 <= k < 12 ==> b[k] == 0
  }

  /** The kinds exclude one another where their prefixes differ. */
  lemma SpecialKindsDisjoint(b: seq<Byte>)
    requires |b| == 16
    ensures IsIPv4Mapped(b) ==> !IsIPv4Compatible(b)
    ensures IsMulticast(b) ==> !IsGlobalUnicast(b) && !IsLinkLocalUnicast(b) && !IsSiteLocalUnicast(b)
    ensures !(IsLinkLocalUnicast(b) && IsSiteLocalUnicast(b))
    ensures IsUnspecified(b) ==> IsIPv4Compatible(b) && !IsLoopback(b)
  {
  }

  /** All groups are zero exactly when all bytes are. */
  lemma ZeroGroups(b: seq<Byte>)
    requires |b| == 16
    ensures IsUnspecified(b) <==> ZeroSpan(Groups(b), 0, 8)
  {
    var g := Groups(b);
    if ZeroSpan(g, 0, 8) {
      forall k | 0 <= k < 16
        ensures b[k] == 0
      {
        assert g[k / 2] == 0;
      }
    }
  }

  /** The first character of joined parts is the first character of the first part. */
  lemma JoinHead(parts: seq<string>, c: char)
    requires |parts| > 0 && |parts[0]| > 0
    ensures |Join(parts, c)| > 0 && Join(parts, c)[0] == parts[0][0]
  {
    if |parts| > 1 {
      assert Join(parts, c) == parts[0] + [c] + Join(parts[1..], c);
    }
  }

  /** Joined short groups start with a hex digit, so never with a colon. */
  lemma ShortsHead(gs: seq<U16>)
    requires |gs| > 0
    ensures |Join(Shorts(gs), ':')| > 0 && Join(Shorts(gs), ':')[0] != ':'
  {
    JoinHead(Shorts(gs), ':');
    assert IsHex(HexShort(gs[0])[0]);
  }

  /** The compressed form is `::` exactly for the unspecified address. */
  lemma UnspecifiedCompressed(b: seq<Byte>)
    requires |b| == 16
    ensures IsUnspecified(b) <==> ToCompressed(b) == "::"
  {
    var g := Groups(b);
    var (s, n) := LongestZeros(g);
    LongestZerosSpec(g);
    ZeroGroups(b);
    if IsUnspecified(b) {
      ZeroRunShift(g, 0, 8);
      assert ZeroRun(g, 0) == 8;
      assert s == 0 && n == 8;
      assert g[..0] == [] && g[8..] == [];
    } else if n < 2 {
      ShortsHead(g);
    } else if s > 0 {
      ShortsHead(g[..s]);
    } else if s + n < 8 {
      ShortsHead(g[s + n..]);
    } else {
      assert false;
    }
  }

  /** The loopback address is written `::1`. */
  lemma LoopbackCompressed(b: seq<Byte>)
    requires |b| == 16 && IsLoopback(b)
    ensures ToCompressed(b) == "::1"
  {
    var g := Groups(b);
    var (s, n) := LongestZeros(g);
    LongestZerosSpec(g);
    assert ZeroSpan(g, 0, 7) && g[7] == 1;
    ZeroRunShift(g, 0, 7);
    assert ZeroRun(g, 0) == 7;
    ZeroRunShift(g, s, 7);
    assert s == 0 && n == 7;
    assert g[..0] == [] && g[7..] == [1];
    assert Shorts([1]) == ["1"];
  }

  /** The NAT64 well-known prefix is written `64:ff9b::`, then the embedded address. */
  lemma WellKnownCompressed(b: seq<Byte>)
    requires |b| == 16 && IsIPv4EmbeddedWellKnown(b)
    ensures |ToCompressed(b)| >= 9 && ToCompressed(b)[..9] == "64:ff9b::"
  {
    var g := Groups(b);
    var (s, n) := LongestZeros(g);
    LongestZerosSpec(g);
    assert g[0] == 0x64 && g[1] == 0xff9b && ZeroSpan(g, 2, 6);
    ZeroRunShift(g, 2, 6);
    assert ZeroRun(g, 2) >= 4;
    assert ZeroRun(g, 0) == 0 && ZeroRun(g, 1) == 0;
    assert s == 2;
    assert g[..2] == [0x64, 0xff9b];
    assert HexShort(0x64) == "64";
    assert HexShort(0xff9b) == "ff9b" by {
      assert HexShort(0xff) == "ff";
      assert HexShort(0xff9) == "ff9";
    }
    assert Shorts([0x64, 0xff9b]) == ["64", "ff9b"];
    assert Join(["64", "ff9b"], ':') == "64:ff9b" by { assert ["64", "ff9b"][1..] == ["ff9b"]; }
  }

  /** The 16 bytes of the IPv4-compatible address of `a`: 96 zero bits, then `a`. */
  function CompatibleBytes(a: U32): (b: seq<Byte>)
    ensures |b| == 16
  {
    seq(12, _ => 0) + Octets(a)
  }

  /** The two groups that hold an IPv4 address. */
  function QuadOf(a: U32): (q: seq<U16>)
    ensures |q| == 2
  {
    var o := Octets(a);
    [o[0] as int * 0x100 + o[1], o[2] as int * 0x100 + o[3]]
  }

  /** A dotted IPv4 address ending an IPv6 text is read as its two groups. */
  lemma QuadSide(a: U32)
    ensures Side(V4ToString(a), true) == Some(QuadOf(a))
    ensures Free(V4ToString(a), '/')
  {
    var q := V4ToString(a);
    var o := Octets(a);
    var parts := [Decimal(o[0]), Decimal(o[1]), Decimal(o[2]), Decimal(o[3])];
    V4Fields(a);
    assert QuadGroups(q) == Some(QuadOf(a)) by {
      forall i | 0 <= i < 4
        ensures Octet(parts[i]) == Some(o[i])
      {
        DecimalRoundTrip(o[i]);
      }
    }
    assert Free(q, ':') by {
      forall i | 0 <= i < 4
        ensures Free(parts[i], ':')
      {
        DecimalFree(o[i], ':');
      }
      JoinFree(parts, '.', ':');
    }
    assert !Free(q, '.') by {
      assert q == parts[0] + ['.'] + Join(parts[1..], '.');
      assert q[|parts[0]|] == '.';
    }
    SplitNone(q, ':');
  }

  /**
   * The documented form `::192.168.0.1`: `::` and a dotted IPv4 address are
   * read as the IPv4-compatible address, with prefix 128.
   */
  lemma QuadRoundTrip(a: U32)
    ensures V6ToBytes("::" + V4ToString(a)) == Ok((CompatibleBytes(a), 128))
    ensures IsIPv4Compatible(CompatibleBytes(a))
  {
    var q := V4ToString(a);
    var body := "::" + q;
    var g := Zeros(6) + QuadOf(a);
    assert ParseGroups(body) == Some(g) by {
      assert DoubleColonFrom(body, 0) == Some(0);
      assert body[..0] == "" && body[2..] == q;
      QuadSide(a);
      assert Side(body[..0], false) == Some([]);
      assert Side(body[2..], true) == Some(QuadOf(a));
      assert [] + Zeros(8 - 0 - 2) + QuadOf(a) == g;
    }
    assert Split(body, '/') == [body] by {
      QuadSide(a);
      assert Free(body, '/');
      SplitNone(body, '/');
    }
    assert GroupBytes(g) == CompatibleBytes(a) by {
      var o := Octets(a);
      SplitGroup(o[0], o[1]);
      SplitGroup(o[2], o[3]);
    }
  }

  /* ---------------------------------------------------------------- */
  /* Order                                                             */
  /* ---------------------------------------------------------------- */

  /** Byte strings of one length compared lexicographically, as `std::array` compares. */
  predicate LexLess(a: seq<Byte>, b: seq<Byte>)
    requires |a| == |b|
    decreases |a|
  {
    |a| > 0 && (a[0] < b[0] || (a[0] == b[0] && LexLess(a[1..], b[1..])))
  }

  /** Lexicographic order is total and strict: exactly one of less, equal and greater. */
  lemma {:induction false} LexTrichotomy(a: seq<Byte>, b: seq<Byte>)
    requires |a| == |b|
    ensures LexLess(a, b) || a == b || LexLess(b, a)
    ensures !(LexLess(a, b) && LexLess(b, a)) && !(LexLess(a, b) && a == b)
    decreases |a|
  {
    if |a| > 0 {
      LexTrichotomy(a[1..], b[1..]);
      if a[0] == b[0] && a[1..] == b[1..] {
        assert a == [a[0]] + a[1..] && b == [b[0]] + b[1..];
      }
    } else {
      assert a == b;
    }
  }

  /** Lexicographic order is transitive. */
  lemma {:induction false} LexTransitive(a: seq<Byte>, b: seq<Byte>, c: seq<Byte>)
    requires |a| == |b| == |c| && LexLess(a, b) && LexLess(b, c)
    ensures LexLess(a, c)
    decreases |a|
  {
    if a[0] == b[0] && b[0] == c[0] {
      LexTransitive(a[1..], b[1..], c[1..]);
    }
  }

  /**
   * `address_v6`: sixteen bytes and a CIDR prefix length, both replaced in
   * place by `assign`.
   */
  class AddressV6 {
    var addr: seq<Byte>
    var cidr: Byte

    /** The address is always sixteen bytes (`std::array<std::uint8_t, 16>`). */
    predicate Valid()
      reads this
    {
      |addr| == 16
    }

    /** `address_v6()`: the member initialisers, all zero bytes and prefix 0. */
    constructor ()
      ensures Valid() && IsUnspecified(addr) && cidr == 0
    {
      addr, cidr := seq(16, _ => 0), 0;
    }

    /** `address_v6(addr)` with bytes: the default prefix 128. */
    constructor FromBytes(b: seq<Byte>)
      requires |b| == 16
      ensures Valid() && addr == b && cidr == 128
    {
      addr, cidr := b, 128;
    }

    /** `address_v6(addr, cidr)` with bytes. */
    constructor FromBytesCidr(b: seq<Byte>, c: Byte)
      requires |b| == 16
      ensures Valid() && addr == b && cidr == c
    {
      addr, cidr := b, c;
    }

    /**
     * `assign(addr)` with a text: the bytes and prefix `toBytes` reads; on
     * malformed text an error and nothing changes.
     */
    method Assign(text: string) returns (r: Result<(), AddressError>)
      requires Valid()
      modifies this
      ensures Valid()
      ensures V6ToBytes(text).Ok? ==>
                r == Ok(()) && addr == V6ToBytes(text).value.0 && cidr == V6ToBytes(text).value.1
      ensures V6ToBytes(text).Err? ==>
                r == Err(V6ToBytes(text).error) && addr == old(addr) && cidr == old(cidr)
    {
      var p := V6ToBytes(text);
      if p.Err? {
        return Err(p.error);
      }
      addr, cidr := p.value.0, p.value.1;
      r := Ok(());
    }

    /** `assign(addr, cidr)` with a text: the bytes `toBytes` reads and the given prefix. */
    method AssignCidr(text: string, c: Byte) returns (r: Result<(), AddressError>)
      requires Valid()
      modifies this
      ensures Valid()
      ensures V6ToBytes(text).Ok? ==> r == Ok(()) && addr == V6ToBytes(text).value.0 && cidr == c
      ensures V6ToBytes(text).Err? ==>
                r == Err(V6ToBytes(text).error) && addr == old(addr) && cidr == old(cidr)
    {
      var p := V6ToBytes(text);
      if p.Err? {
        return Err(p.error);
      }
      addr, cidr := p.value.0, c;
      r := Ok(());
    }

    /** `assign(addr)` with bytes: the default prefix 128. */
    method AssignBytes(b: seq<Byte>)
      requires |b| == 16
      modifies this
      ensures Valid() && addr == b && cidr == 128
    {
      addr, cidr := b, 128;
    }

    /** `assign(addr, cidr)` with bytes. */
    method AssignBytesCidr(b: seq<Byte>, c: Byte)
      requires |b| == 16
      modifies this
      ensures Valid() && addr == b && cidr == c
    {
      addr, cidr := b, c;
    }

    /** `str()`, which is `compressed()`: read back as this address with prefix 128. */
    method Str() returns (s: string)
      requires Valid()
      ensures s == ToCompressed(addr)
      ensures V6ToBytes(s) == Ok((addr, 128))
    {
      s := ToCompressed(addr);
      CompressedRoundTrip(addr, 0);
    }

    /** `notation()`: read back as this address and prefix. */
    method Notation() returns (s: string)
      requires Valid()
      ensures s == V6ToString(addr, cidr)
      ensures cidr <= 128 ==> V6ToBytes(s) == Ok((addr, cidr))
    {
      s := V6ToString(addr, cidr);
      if cidr <= 128 {
        CompressedRoundTrip(addr, cidr);
      }
    }

    /** `expanded()`: read back as this address with prefix 128. */
    method Expanded() returns (s: string)
      requires Valid()
      ensures s == ToExpanded(addr)
      ensures V6ToBytes(s) == Ok((addr, 128))
    {
      s := ToExpanded(addr);
      ExpandedRoundTrip(addr);
    }

    /** `suppressed()`: read back as this address with prefix 128. */
    method Suppressed() returns (s: string)
      requires Valid()
      ensures s == ToSuppressed(addr)
      ensures V6ToBytes(s) == Ok((addr, 128))
    {
      s := ToSuppressed(addr);
      SuppressedRoundTrip(addr);
    }

    /** `operator==`: the same bytes and the same prefix length. */
    predicate Equal(o: AddressV6)
      reads this, o
    {
      addr == o.addr && cidr == o.cidr
    }

    /** `operator<`: bytes in lexicographic order; by prefix length when the bytes are equal. */
    predicate Less(o: AddressV6)
      reads this, o
      requires Valid() && o.Valid()
    {
      if addr == o.addr then cidr < o.cidr else LexLess(addr, o.addr)
    }

    /** `operator<=`: bytes in lexicographic order; by prefix length when the bytes are equal. */
    predicate LessEq(o: AddressV6)
      reads this, o
      requires Valid() && o.Valid()
    {
      if addr == o.addr then cidr <= o.cidr else LexLess(addr, o.addr)
    }
  }

  /**
   * `address_v6(addr)` with a text: a new address, or the error the
   * constructor throws.
   */
  method ParseV6(text: string) returns (r: Result<AddressV6, AddressError>)
    ensures r.Ok? <==> V6ToBytes(text).Ok?
    ensures r.Ok? ==> fresh(r.value) && r.value.Valid() && r.value.addr == V6ToBytes(text).value.0
                      && r.value.cidr == V6ToBytes(text).value.1
    ensures r.Err? ==> r.error == V6ToBytes(text).error
  {
    var p := V6ToBytes(text);
    if p.Err? {
      return Err(p.error);
    }
    var a := new AddressV6.FromBytesCidr(p.value.0, p.value.1);
    r := Ok(a);
  }

  /** The IPv6 order is strict and total: exactly one of less, equal and greater holds. */
  lemma V6Trichotomy(a: AddressV6, b: AddressV6)
    requires a.Valid() && b.Valid()
    ensures a.Less(b) || a.Equal(b) || b.Less(a)
    ensures !(a.Less(b) && a.Equal(b)) && !(a.Less(b) && b.Less(a)) && !(a.Equal(b) && b.Less(a))
  {
    LexTrichotomy(a.addr, b.addr);
  }

  /** `<` is transitive. */
  lemma V6LessTransitive(a: AddressV6, b: AddressV6, c: AddressV6)
    requires a.Valid() && b.Valid() && c.Valid() && a.Less(b) && b.Less(c)
    ensures a.Less(c)
  {
    LexTrichotomy(a.addr, c.addr);
    if a.addr != b.addr && b.addr != c.addr {
      LexTransitive(a.addr, b.addr, c.addr);
    }
  }

  /** `<=` is `<` or `==`. */
  lemma V6LessEqIff(a: AddressV6, b: AddressV6)
    requires a.Valid() && b.Valid()
    ensures a.LessEq(b) <==> a.Less(b) || a.Equal(b)
  {
  }
}
