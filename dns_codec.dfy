/**
 * The DNS wire codec of include/socket/dns/dns_codec.hpp: an append-only
 * encoder (a byte vector plus the name-compression cache) and a decoder that
 * reads through a `{beg, cur, end}` cursor over an immutable input buffer.
 *
 * Only the fixed-size array overloads have bodies in the header. The 16-bit
 * integer overloads are modelled big-endian (section 2.3.2 of RFC 1035) and,
 * like the array overload, check the remaining length before they advance.
 */
module DnsCodec {
  import opened Wrappers

  type Byte = bv8
  type U16 = bv16

  /** The runtime_error the decoder throws when the input runs short. */
  datatype CodecError = NotEnough(need: nat)

  /** Network byte order of a 16-bit value (section 2.3.2 of RFC 1035). */
  function U16Bytes(x: U16): (r: seq<Byte>)
    ensures |r| == 2
    ensures ((r[0] as U16) << 8) | (r[1] as U16) == x
  {
    [(x >> 8) as Byte, (x & 0xFF) as Byte]
  }

  function U16Of(hi: Byte, lo: Byte): (r: U16)
    ensures U16Bytes(r) == [hi, lo]
  {
    ((hi as U16) << 8) | (lo as U16)
  }

  lemma U16BytesInjective(x: U16, y: U16)
    requires U16Bytes(x) == U16Bytes(y)
    ensures x == y
  {
  }

  /**
   * What `unpack(std::array<uint8_t, n>&)` does to a cursor `cur` that may
   * read up to `end` in `mem`: the `n` bytes at `cur` and the new cursor, or
   * the size error when fewer than `n` bytes remain.
   */
  function TakeBytes(mem: seq<Byte>, cur: nat, end: nat, n: nat): (r: Result<(seq<Byte>, nat), CodecError>)
    requires cur <= end <= |mem|
    ensures r.Err? <==> end - cur < n
    ensures r.Err? ==> r.error == NotEnough(n)
    ensures r.Ok? ==> r.value.1 == cur + n <= end && r.value.0 == mem[cur..cur + n]
  {
    if end - cur < n then Err(NotEnough(n)) else Ok((mem[cur..cur + n], cur + n))
  }

  /** What the 16-bit `unpack` does to the cursor: two bytes, most significant first. */
  function TakeU16(mem: seq<Byte>, cur: nat, end: nat): (r: Result<(U16, nat), CodecError>)
    requires cur <= end <= |mem|
    ensures r.Err? <==> end - cur < 2
    ensures r.Ok? ==> r.value.1 == cur + 2 <= end && U16Bytes(r.value.0) == mem[cur..cur + 2]
  {
    var b :- TakeBytes(mem, cur, end, 2);
    Ok((U16Of(b.0[0], b.0[1]), b.1))
  }

  /** Packing `val` and unpacking the same number of bytes at that offset gives `val` back. */
  lemma {:induction false} ArrayRoundTrip(before: seq<Byte>, val: seq<Byte>, after: seq<Byte>)
    ensures var mem := before + val + after;
            TakeBytes(mem, |before|, |mem|, |val|) == Ok((val, |before| + |val|))
  {
    var mem := before + val + after;
    assert mem[|before|..|before| + |val|] == val;
  }

  /** A big-endian 16-bit value reads back as itself wherever it was packed. */
  lemma {:induction false} U16RoundTrip(before: seq<Byte>, x: U16, after: seq<Byte>)
    ensures var mem := before + U16Bytes(x) + after;
            TakeU16(mem, |before|, |mem|) == Ok((x, |before| + 2))
  {
    var mem := before + U16Bytes(x) + after;
    ArrayRoundTrip(before, U16Bytes(x), after);
    assert U16Bytes(U16Of(U16Bytes(x)[0], U16Bytes(x)[1])) == U16Bytes(x);
  }

  class Encoder {
    /** The bytes written so far (`_data`). */
    var data: seq<Byte>
    /** Domain-name suffix to offset, for compression pointers (`_cache`). */
    var cache: map<string, U16>

    constructor ()
      ensures data == [] && cache == map[]
    {
      data := [];
      cache := map[];
    }

    /** `pack(std::array<uint8_t, N>)`: appends the N bytes in order. */
    method PackArray(val: seq<Byte>)
      modifies this
      ensures data == old(data) + val
      ensures cache == old(cache)
    {
      data := data + val;
    }

    /** `pack(std::uint16_t)`, big-endian. */
    method PackU16(val: U16)
      modifies this
      ensures data == old(data) + U16Bytes(val)
      ensures cache == old(cache)
    {
      data := data + U16Bytes(val);
    }
  }

  class Decoder {
    /** The memory the iterators point into. */
    const mem: seq<Byte>
    const beg: nat
    const end: nat
    var cur: nat

    ghost predicate Valid()
      reads this
    {
      beg <= cur <= end <= |mem|
    }

    /** `decoder(beg, end)`: the cursor starts at `beg`. */
    constructor (mem: seq<Byte>, beg: nat, end: nat)
      requires beg <= end <= |mem|
      ensures Valid()
      ensures this.mem == mem && this.beg == beg && this.end == end && cur == beg
    {
      this.mem := mem;
      this.beg := beg;
      this.end := end;
      cur := beg;
    }

    /**
     * `unpack(std::array<uint8_t, n>&)`: throws when fewer than `n` bytes
     * remain, before moving; otherwise copies the `n` bytes at `cur` and
     * advances `cur` by exactly `n`, never past `end`.
     */
    method UnpackArray(n: nat) returns (r: Result<seq<Byte>, CodecError>)
      requires Valid()
      modifies this`cur
      ensures Valid()
      ensures r.Err? <==> old(end - cur) < n
      ensures r.Err? ==> cur == old(cur) && r.error == NotEnough(n)
      ensures r.Ok? ==> cur == old(cur) + n && r.value == mem[old(cur)..cur]
    {
      var need := n;
      if end - cur < need {
        return Err(NotEnough(need));
      }
      var from := cur;
      cur := cur + need;
      r := Ok(mem[from..cur]);
    }

    /** `unpack(std::uint16_t&)`, big-endian. */
    method UnpackU16() returns (r: Result<U16, CodecError>)
      requires Valid()
      modifies this`cur
      ensures Valid()
      ensures r.Err? <==> old(end - cur) < 2
      ensures r.Err? ==> cur == old(cur) && r.error == NotEnough(2)
      ensures r.Ok? ==> cur == old(cur) + 2 && TakeU16(mem, old(cur), end) == Ok((r.value, cur))
    {
      var b := UnpackArray(2);
      if b.Err? {
        return Err(b.error);
      }
      r := Ok(U16Of(b.value[0], b.value[1]));
    }
  }
}
