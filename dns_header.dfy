/**
 * The DNS message header and question records of src/dns/dns_header.cpp.
 *
 * The flag word packs QR, Opcode, AA, TC, RD, RA, Z, AD, CD and RCODE at the
 * positions of section 4.1.1 of RFC 1035, with AD and CD taken from section
 * 6.1 of RFC 2535. Every setter clears its field and ORs in the shifted value
 * cut to the field's mask; every getter returns the masked bits, unshifted.
 */
module DnsHeader {
  import opened Wrappers
  import opened DnsCodec

  /** The ten fields that share the 16-bit flag word. */
  datatype Field = Qr | Opcode | Aa | Tc | Rd | Ra | Z | Ad | Cd | Rcode

  /** FLAG_MASK_*: the bits a field occupies. */
  function Mask(f: Field): bv16
  {
    match f
    case Qr => 0x8000
    case Opcode => 0x7800
    case Aa => 0x0400
    case Tc => 0x0200
    case Rd => 0x0100
    case Ra => 0x0080
    case Z => 0x0040
    case Ad => 0x0020
    case Cd => 0x0010
    case Rcode => 0x000F
  }

  /** `value << FLAG_POS_*`: QR at bit 15, Opcode from bit 11, AA 10 down to CD 4, RCODE from bit 0. */
  function Shift(value: bv16, f: Field): bv16
  {
    match f
    case Qr => value << 15
    case Opcode => value << 11
    case Aa => value << 10
    case Tc => value << 9
    case Rd => value << 8
    case Ra => value << 7
    case Z => value << 6
    case Ad => value << 5
    case Cd => value << 4
    case Rcode => value
  }

  /** The one-bit fields, whose getters and setters take a `bool`. */
  predicate IsBit(f: Field)
  {
    !(f == Opcode || f == Rcode)
  }

  /** The masks match the layout: one bit at its position for a flag, four bits for Opcode and RCODE. */
  lemma MaskShape(f: Field)
    ensures IsBit(f) ==> Mask(f) == Shift(1, f)
    ensures !IsBit(f) ==> Mask(f) == Shift(0xF, f)
  {
  }

  /** Distinct fields never share a bit. */
  lemma MasksDisjoint(f: Field, g: Field)
    requires f != g
    ensures Mask(f) & Mask(g) == 0
  {
  }

  /** Together the fields cover the whole word. */
  lemma MasksCover()
    ensures Mask(Qr) | Mask(Opcode) | Mask(Aa) | Mask(Tc) | Mask(Rd) | Mask(Ra)
          | Mask(Z) | Mask(Ad) | Mask(Cd) | Mask(Rcode) == 0xFFFF
  {
  }

  /** The value a setter writes: the field cleared, then `(value << pos) & mask` ORed in. */
  function Assign(flag: bv16, f: Field, value: bv16): (r: bv16)
    ensures r & !Mask(f) == flag & !Mask(f)
    ensures r & Mask(f) == Shift(value, f) & Mask(f)
  {
    var m := Mask(f);
    (flag & !m) | (Shift(value, f) & m)
  }

  /** What the `qr()`, `opcode()` and `rcode()` getters return: the masked bits, not shifted back. */
  function Masked(flag: bv16, f: Field): bv16
  {
    flag & Mask(f)
  }

  /** What a boolean getter returns: whether any bit under the mask is set. */
  predicate Test(flag: bv16, f: Field)
  {
    flag & Mask(f) != 0
  }

  /** `static_cast<std::uint16_t>(bool)`. */
  function BoolBits(b: bool): (v: bv16)
    ensures v == 0 || v == 1
    ensures b <==> v == 1
  {
    if b then 1 else 0
  }

  /** Two words that agree outside mask `m` agree under every mask disjoint from `m`. */
  lemma AgreeOutside(r: bv16, flag: bv16, m: bv16, n: bv16)
    requires r & !m == flag & !m
    requires m & n == 0
    ensures r & n == flag & n
  {
  }

  /** A setter leaves every other field exactly as it was, boolean flags included. */
  lemma AssignKeepsOthers(flag: bv16, f: Field, value: bv16, g: Field)
    requires f != g
    ensures Masked(Assign(flag, f, value), g) == Masked(flag, g)
    ensures Test(Assign(flag, f, value), g) == Test(flag, g)
  {
    AssignKeepsMasked(flag, f, value, g);
    SameUnderMask(Assign(flag, f, value), flag, g);
  }

  lemma SameUnderMask(x: bv16, y: bv16, g: Field)
    requires x & Mask(g) == y & Mask(g)
    ensures Masked(x, g) == Masked(y, g)
    ensures Test(x, g) == Test(y, g)
  {
  }

  lemma AssignKeepsMasked(flag: bv16, f: Field, value: bv16, g: Field)
    requires f != g
    ensures Assign(flag, f, value) & Mask(g) == flag & Mask(g)
  {
    MasksDisjoint(f, g);
    AgreeOutside(Assign(flag, f, value), flag, Mask(f), Mask(g));
  }

  /** A boolean flag reads back as the value last set. */
  lemma BitRoundTrip(flag: bv16, f: Field, b: bool)
    requires IsBit(f)
    ensures Test(Assign(flag, f, BoolBits(b)), f) == b
  {
    MaskShape(f);
  }

  /**
   * `qr`/`opcode`/`rcode` read back as `(v << pos) & mask`, so the value set
   * comes back unchanged only for RCODE (position 0) and values below 16.
   */
  lemma FieldReadBack(flag: bv16, f: Field, v: bv16)
    requires !IsBit(f)
    ensures Masked(Assign(flag, f, v), f) == Shift(v, f) & Mask(f)
    ensures f == Rcode ==> (Masked(Assign(flag, f, v), f) == v <==> v < 16)
  {
  }

  /** Opcode 2 (STATUS) reads back as 0x1000, not 2. */
  lemma OpcodeReadsShifted(flag: bv16)
    ensures Masked(Assign(flag, Opcode, 2), Opcode) == 0x1000
  {
  }

  /** The header as a value: the six 16-bit words of section 4.1.1 of RFC 1035. */
  datatype HeaderValue = HeaderValue(id: U16, flag: bv16, qdcount: U16, ancount: U16, nscount: U16, arcount: U16)

  /** The 12 bytes `header::encode` writes: id, flag, qdcount, ancount, nscount, arcount. */
  function HeaderBytes(h: HeaderValue): (r: seq<Byte>)
    ensures |r| == 12
  {
    U16Bytes(h.id) + U16Bytes(h.flag) + U16Bytes(h.qdcount)
    + U16Bytes(h.ancount) + U16Bytes(h.nscount) + U16Bytes(h.arcount)
  }

  /**
   * What `header::decode` reads at `cur`: six 16-bit words in encode order,
   * failing as soon as one of them runs short.
   */
  function DecodeHeaderAt(mem: seq<Byte>, cur: nat, end: nat): (r: Result<(HeaderValue, nat), CodecError>)
    requires cur <= end <= |mem|
    ensures r.Ok? <==> end - cur >= 12
    ensures r.Ok? ==> r.value.1 == cur + 12
  {
    var a :- TakeThree(mem, cur, end);
    var b :- TakeThree(mem, a.3, end);
    Ok((HeaderValue(a.0, a.1, a.2, b.0, b.1, b.2), b.3))
  }

  /** Three consecutive 16-bit words: half of the header. */
  function TakeThree(mem: seq<Byte>, cur: nat, end: nat): (r: Result<(U16, U16, U16, nat), CodecError>)
    requires cur <= end <= |mem|
    ensures r.Ok? <==> end - cur >= 6
    ensures r.Ok? ==> r.value.3 == cur + 6
  {
    var x :- TakeU16(mem, cur, end);
    var y :- TakeU16(mem, x.1, end);
    var z :- TakeU16(mem, y.1, end);
    Ok((x.0, y.0, z.0, z.1))
  }

  /** Three `unpack` calls of 16-bit words in a row, read as `TakeThree`. */
  method UnpackThree(dec: Decoder) returns (r: Result<(U16, U16, U16), CodecError>)
    requires dec.Valid()
    modifies dec`cur
    ensures dec.Valid()
    ensures var t := TakeThree(dec.mem, old(dec.cur), dec.end);
            && r.Ok? == t.Ok?
            && (t.Ok? ==> r.value == (t.value.0, t.value.1, t.value.2) && dec.cur == t.value.3)
  {
    var x :- dec.UnpackU16();
    var y :- dec.UnpackU16();
    var z :- dec.UnpackU16();
    r := Ok((x, y, z));
  }

  lemma SliceJoin(mem: seq<Byte>, i: nat, j: nat, k: nat)
    requires i <= j <= k <= |mem|
    ensures mem[i..j] + mem[j..k] == mem[i..k]
  {
  }

  /** Whatever header decodes from twelve bytes encodes back to exactly those bytes. */
  lemma DecodeThenEncode(mem: seq<Byte>, cur: nat, end: nat)
    requires cur <= end <= |mem|
    requires DecodeHeaderAt(mem, cur, end).Ok?
    ensures HeaderBytes(DecodeHeaderAt(mem, cur, end).value.0) == mem[cur..cur + 12]
  {
    var h := DecodeHeaderAt(mem, cur, end).value.0;
    assert U16Bytes(h.id) == mem[cur..cur + 2];
    assert U16Bytes(h.flag) == mem[cur + 2..cur + 4];
    assert U16Bytes(h.qdcount) == mem[cur + 4..cur + 6];
    assert U16Bytes(h.ancount) == mem[cur + 6..cur + 8];
    assert U16Bytes(h.nscount) == mem[cur + 8..cur + 10];
    assert U16Bytes(h.arcount) == mem[cur + 10..cur + 12];
    SliceJoin(mem, cur, cur + 2, cur + 4);
    SliceJoin(mem, cur, cur + 4, cur + 6);
    SliceJoin(mem, cur, cur + 6, cur + 8);
    SliceJoin(mem, cur, cur + 8, cur + 10);
    SliceJoin(mem, cur, cur + 10, cur + 12);
  }

  /** The six two-byte slices of a twelve-byte concatenation are its parts. */
  lemma SplitSix<T>(a: seq<T>, b: seq<T>, c: seq<T>, d: seq<T>, e: seq<T>, f: seq<T>)
    requires |a| == |b| == |c| == |d| == |e| == |f| == 2
    ensures var s := a + b + c + d + e + f;
            s[0..2] == a && s[2..4] == b && s[4..6] == c
            && s[6..8] == d && s[8..10] == e && s[10..12] == f
  {
  }

  /** Appending six parts one at a time appends their concatenation. */
  lemma AppendSix<T>(s: seq<T>, a: seq<T>, b: seq<T>, c: seq<T>, d: seq<T>, e: seq<T>, f: seq<T>)
    ensures s + (a + b + c + d + e + f) == s + a + b + c + d + e + f
  {
  }

  /** Different headers encode to different bytes. */
  lemma HeaderBytesInjective(h: HeaderValue, k: HeaderValue)
    requires HeaderBytes(h) == HeaderBytes(k)
    ensures h == k
  {
    SplitSix(U16Bytes(h.id), U16Bytes(h.flag), U16Bytes(h.qdcount),
             U16Bytes(h.ancount), U16Bytes(h.nscount), U16Bytes(h.arcount));
    SplitSix(U16Bytes(k.id), U16Bytes(k.flag), U16Bytes(k.qdcount),
             U16Bytes(k.ancount), U16Bytes(k.nscount), U16Bytes(k.arcount));
    U16BytesInjective(h.id, k.id);
    U16BytesInjective(h.flag, k.flag);
    U16BytesInjective(h.qdcount, k.qdcount);
    U16BytesInjective(h.ancount, k.ancount);
    U16BytesInjective(h.nscount, k.nscount);
    U16BytesInjective(h.arcount, k.arcount);
  }

  /** Decoding the bytes of an encoded header reproduces every field, flag bits included. */
  lemma HeaderRoundTrip(before: seq<Byte>, h: HeaderValue, after: seq<Byte>)
    ensures var mem := before + HeaderBytes(h) + after;
            DecodeHeaderAt(mem, |before|, |mem|) == Ok((h, |before| + 12))
  {
    var mem := before + HeaderBytes(h) + after;
    var r := DecodeHeaderAt(mem, |before|, |mem|);
    assert mem[|before|..|before| + 12] == HeaderBytes(h);
    DecodeThenEncode(mem, |before|, |mem|);
    HeaderBytesInjective(r.value.0, h);
  }

  /** A header record (`chen::dns::header`). */
  class Header {
    var id: U16
    var flag: bv16
    var qdcount: U16
    var ancount: U16
    var nscount: U16
    var arcount: U16

    constructor ()
      ensures Value() == HeaderValue(0, 0, 0, 0, 0, 0)
    {
      id, flag, qdcount, ancount, nscount, arcount := 0, 0, 0, 0, 0, 0;
    }

    function Value(): HeaderValue
      reads this
    {
      HeaderValue(id, flag, qdcount, ancount, nscount, arcount)
    }

    /** `id(value)`: overwrites the id and nothing else. */
    method SetId(value: U16)
      modifies this`id
      ensures id == value
    {
      id := value;
    }

    /** `flag(value)`: overwrites the whole flag word. */
    method SetFlag(value: bv16)
      modifies this`flag
      ensures flag == value
    {
      flag := value;
    }

    method SetQdcount(value: U16)
      modifies this`qdcount
      ensures qdcount == value
    {
      qdcount := value;
    }

    method SetAncount(value: U16)
      modifies this`ancount
      ensures ancount == value
    {
      ancount := value;
    }

    method SetNscount(value: U16)
      modifies this`nscount
      ensures nscount == value
    {
      nscount := value;
    }

    method SetArcount(value: U16)
      modifies this`arcount
      ensures arcount == value
    {
      arcount := value;
    }

    function Qr(): bv16
      reads this
    {
      Masked(flag, Field.Qr)
    }

    function Opcode(): bv16
      reads this
    {
      Masked(flag, Field.Opcode)
    }

    function Rcode(): bv16
      reads this
    {
      Masked(flag, Field.Rcode)
    }

    predicate Authoritative()
      reads this
    {
      Test(flag, Aa)
    }

    predicate Truncated()
      reads this
    {
      Test(flag, Tc)
    }

    predicate RecursionDesired()
      reads this
    {
      Test(flag, Rd)
    }

    predicate RecursionAvailable()
      reads this
    {
      Test(flag, Ra)
    }

    predicate Zero()
      reads this
    {
      Test(flag, Z)
    }

    predicate AuthenticData()
      reads this
    {
      Test(flag, Ad)
    }

    predicate CheckingDisabled()
      reads this
    {
      Test(flag, Cd)
    }

    /** `qr(value)`, `opcode(value)`, `rcode(value)`: only the bits under the field's mask change. */
    method SetCode(f: Field, value: bv16)
      requires !IsBit(f) || f == Field.Qr
      modifies this`flag
      ensures flag & !Mask(f) == old(flag) & !Mask(f)
      ensures flag == Assign(old(flag), f, value)
      ensures f == Field.Qr ==> Qr() == Shift(value, f) & Mask(f)
      ensures f == Field.Opcode ==> Opcode() == Shift(value, f) & Mask(f)
      ensures f == Field.Rcode ==> Rcode() == Shift(value, f) & Mask(f)
    {
      var next := Assign(flag, f, value);
      assert Masked(next, f) == Shift(value, f) & Mask(f);
      flag := next;
    }

    /** The boolean setters (`authoritative(value)`, `truncated(value)`, ...). */
    method SetBit(f: Field, value: bool)
      requires IsBit(f)
      modifies this`flag
      ensures flag & !Mask(f) == old(flag) & !Mask(f)
      ensures flag == Assign(old(flag), f, BoolBits(value))
      ensures Test(flag, f) == value
      ensures f == Aa ==> Authoritative() == value
      ensures f == Tc ==> Truncated() == value
      ensures f == Rd ==> RecursionDesired() == value
      ensures f == Ra ==> RecursionAvailable() == value
      ensures f == Z ==> Zero() == value
      ensures f == Ad ==> AuthenticData() == value
      ensures f == Cd ==> CheckingDisabled() == value
    {
      var next := Assign(flag, f, BoolBits(value));
      BitRoundTrip(flag, f, value);
      flag := next;
    }

    /** `header::encode`: appends the 12 header bytes; the compression cache is untouched. */
    method Encode(enc: Encoder)
      modifies enc
      ensures enc.data == old(enc.data) + HeaderBytes(Value())
      ensures enc.cache == old(enc.cache)
    {
      enc.PackU16(id);
      enc.PackU16(flag);
      enc.PackU16(qdcount);
      enc.PackU16(ancount);
      enc.PackU16(nscount);
      enc.PackU16(arcount);
      AppendSix(old(enc.data), U16Bytes(id), U16Bytes(flag), U16Bytes(qdcount),
                U16Bytes(ancount), U16Bytes(nscount), U16Bytes(arcount));
    }

    /**
     * `header::decode`: reads the six words into locals and assigns the
     * members only once all six were read, so a failing decode leaves the
     * header as it was.
     */
    method Decode(dec: Decoder) returns (r: Result<(), CodecError>)
      requires dec.Valid()
      modifies this, dec`cur
      ensures dec.Valid()
      ensures var d := DecodeHeaderAt(dec.mem, old(dec.cur), dec.end);
              && r.Ok? == d.Ok?
              && (d.Ok? ==> Value() == d.value.0 && dec.cur == d.value.1)
              && (d.Err? ==> Value() == old(Value()))
    {
      var a :- UnpackThree(dec);
      var b :- UnpackThree(dec);
      var id, flag, qdcount := a.0, a.1, a.2;
      var ancount, nscount, arcount := b.0, b.1, b.2;
      this.id, this.flag, this.qdcount := id, flag, qdcount;
      this.ancount, this.nscount, this.arcount := ancount, nscount, arcount;
      r := Ok(());
    }
  }

  /** The question as a value (section 4.1.2 of RFC 1035); RRType and RRClass are 16-bit codes. */
  datatype QuestionValue = QuestionValue(qname: string, qtype: U16, qclass: U16)

  /**
   * The domain-name codec the question relies on (`pack`/`unpack` with
   * `StringType::Domain`): a byte encoding of a name and a cursor-moving
   * decoder that never moves backwards nor past `end`.
   */
  ghost predicate NameDecoder(unpackName: (seq<Byte>, nat, nat) -> Result<(string, nat), CodecError>)
  {
    forall mem: seq<Byte>, cur: nat, end: nat | cur <= end <= |mem| ::
      unpackName(mem, cur, end).Ok? ==> cur <= unpackName(mem, cur, end).value.1 <= end
  }

  /** The bytes `question::encode` writes: the name (uncompressed), then qtype, then qclass. */
  function QuestionBytes(q: QuestionValue, packName: string -> seq<Byte>): seq<Byte>
  {
    packName(q.qname) + U16Bytes(q.qtype) + U16Bytes(q.qclass)
  }

  /** What `question::decode` reads at `cur`, in encode order. */
  function DecodeQuestionAt(mem: seq<Byte>, cur: nat, end: nat,
                            unpackName: (seq<Byte>, nat, nat) -> Result<(string, nat), CodecError>)
    : (r: Result<(QuestionValue, nat), CodecError>)
    requires cur <= end <= |mem|
    requires NameDecoder(unpackName)
    ensures r.Ok? ==> cur <= r.value.1 <= end
  {
    var name :- unpackName(mem, cur, end);
    var qtype :- TakeU16(mem, name.1, end);
    var qclass :- TakeU16(mem, qtype.1, end);
    Ok((QuestionValue(name.0, qtype.0, qclass.0), qclass.1))
  }

  /**
   * If the name decoder reads back the name the name encoder wrote, a whole
   * question reads back as itself and the cursor ends right after it.
   */
  lemma QuestionRoundTrip(before: seq<Byte>, q: QuestionValue, after: seq<Byte>,
                          packName: string -> seq<Byte>,
                          unpackName: (seq<Byte>, nat, nat) -> Result<(string, nat), CodecError>)
    requires NameDecoder(unpackName)
    requires var mem := before + QuestionBytes(q, packName) + after;
             unpackName(mem, |before|, |mem|) == Ok((q.qname, |before| + |packName(q.qname)|))
    ensures var mem := before + QuestionBytes(q, packName) + after;
            DecodeQuestionAt(mem, |before|, |mem|, unpackName)
              == Ok((q, |before| + |QuestionBytes(q, packName)|))
  {
    var mem := before + QuestionBytes(q, packName) + after;
    var n, t, c := packName(q.qname), U16Bytes(q.qtype), U16Bytes(q.qclass);
    var at := |before| + |n|;
    assert mem == (before + n) + t + (c + after);
    U16RoundTrip(before + n, q.qtype, c + after);
    assert TakeU16(mem, at, |mem|) == Ok((q.qtype, at + 2));
    assert mem == (before + n + t) + c + after;
    U16RoundTrip(before + n + t, q.qclass, after);
    assert TakeU16(mem, at + 2, |mem|) == Ok((q.qclass, at + 4));
  }

  /** A question record (`chen::dns::question`). */
  class Question {
    var qname: string
    var qtype: U16
    var qclass: U16

    constructor (qname: string, qtype: U16, qclass: U16)
      ensures Value() == QuestionValue(qname, qtype, qclass)
    {
      this.qname, this.qtype, this.qclass := qname, qtype, qclass;
    }

    function Value(): QuestionValue
      reads this
    {
      QuestionValue(qname, qtype, qclass)
    }

    method SetQname(value: string)
      modifies this`qname
      ensures qname == value
    {
      qname := value;
    }

    method SetQtype(value: U16)
      modifies this`qtype
      ensures qtype == value
    {
      qtype := value;
    }

    method SetQclass(value: U16)
      modifies this`qclass
      ensures qclass == value
    {
      qclass := value;
    }

    /** `question::encode`: name as an uncompressed Domain string, then qtype, then qclass. */
    method Encode(enc: Encoder, packName: string -> seq<Byte>)
      modifies enc
      ensures enc.data == old(enc.data) + QuestionBytes(Value(), packName)
      ensures enc.cache == old(enc.cache)
    {
      enc.PackArray(packName(qname));
      enc.PackU16(qtype);
      enc.PackU16(qclass);
    }

    /** `question::decode`: mirrors the encode order and assigns the members only at the end. */
    method Decode(dec: Decoder, unpackName: (seq<Byte>, nat, nat) -> Result<(string, nat), CodecError>)
      returns (r: Result<(), CodecError>)
      requires dec.Valid()
      requires NameDecoder(unpackName)
      modifies this, dec`cur
      ensures dec.Valid()
      ensures var d := DecodeQuestionAt(dec.mem, old(dec.cur), dec.end, unpackName);
              && r.Ok? == d.Ok?
              && (d.Ok? ==> Value() == d.value.0 && dec.cur == d.value.1)
              && (d.Err? ==> Value() == old(Value()))
    {
      var name :- unpackName(dec.mem, dec.cur, dec.end);
      dec.cur := name.1;
      var qtype :- dec.UnpackU16();
      var qclass :- dec.UnpackU16();
      this.qname, this.qtype, this.qclass := name.0, qtype, qclass;
      r := Ok(());
    }
  }
}
