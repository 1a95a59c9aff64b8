/**
 * The DNS header of section 4.1.1 of RFC 1035 as `DNSHeader` builds it: thirteen
 * integer fields, a 16-bit flags word computed once, when the object is
 * constructed, with Python's shift and bitwise-or operators, and a 12-octet
 * big-endian layout.
 */
module HeaderCreator {
  import opened Wire

  /** 2 to the power `n`. */
  function Pow2(n: nat): (p: nat)
    ensures p >= 1
  {
    if n == 0 then 1 else 2 * Pow2(n - 1)
  }

  /** Python's `x << n`, for integers of either sign. */
  function Shl(x: int, n: nat): (r: int)
    ensures r < 0 <==> x < 0
  {
    x * Pow2(n)
  }

  /** How far `x` is from the two integers whose bits are all equal, 0 and -1. */
  function Magnitude(x: int): nat
  {
    if x >= 0 then x else -x - 1
  }

  /**
   * Python's `a | b` on unbounded integers in two's complement: bit by bit from
   * the least significant one, until an operand is 0 (all bits clear) or -1
   * (all bits set).
   */
  function Or(a: int, b: int): (r: int)
    ensures r < 0 <==> a < 0 || b < 0
    decreases Magnitude(a) + Magnitude(b)
  {
    if a == 0 || b == -1 then b
    else if b == 0 || a == -1 then a
    else 2 * Or(a / 2, b / 2) + (if a % 2 == 1 || b % 2 == 1 then 1 else 0)
  }

  /**
   * Or-ing a value below `2^k` into a multiple of `2^k` is addition: the two
   * have no bit in common.
   */
  lemma {:induction false} OrDisjoint(x: nat, k: nat, b: int)
    requires 0 <= b < Pow2(k)
    ensures Or(x * Pow2(k), b) == x * Pow2(k) + b
  {
    if k > 0 && x != 0 && b != 0 {
      var a := x * Pow2(k);
      assert a == 2 * (x * Pow2(k - 1));
      OrDisjoint(x, k - 1, b / 2);
    }
  }

  /** The flags word of `__post_init__`: each field shifted to its place, all or-ed together. */
  function FlagsWord(qr: int, opcode: int, aa: int, tc: int, rd: int, ra: int, z: int, rcode: int): (flags: int)
    ensures flags < 0 <==> qr < 0 || opcode < 0 || aa < 0 || tc < 0 || rd < 0 || ra < 0 || z < 0 || rcode < 0
  {
    Or(Or(Or(Or(Or(Or(Or(Shl(qr, 15), Shl(opcode, 11)), Shl(aa, 10)), Shl(tc, 9)), Shl(rd, 8)), Shl(ra, 7)), Shl(z, 4)), rcode)
  }

  /** The widths the flags layout gives each field: one bit, four, three or four bits. */
  predicate FlagsInWidth(qr: int, opcode: int, aa: int, tc: int, rd: int, ra: int, z: int, rcode: int)
  {
    && 0 <= qr < 2 && 0 <= opcode < 16 && 0 <= aa < 2 && 0 <= tc < 2
    && 0 <= rd < 2 && 0 <= ra < 2 && 0 <= z < 8 && 0 <= rcode < 16
  }

  /** `OrDisjoint` with the power of two given as a number, so that callers stay linear. */
  lemma OrAt(x: nat, k: nat, p: nat, b: int)
    requires p == Pow2(k) && 0 <= b < p
    ensures Or(x * p, b) == x * p + b
  {
    OrDisjoint(x, k, b);
  }

  /**
   * With every field within its width the fields occupy disjoint bits, so the
   * word is their weighted sum.
   */
  lemma FlagsSum(qr: int, opcode: int, aa: int, tc: int, rd: int, ra: int, z: int, rcode: int)
    requires FlagsInWidth(qr, opcode, aa, tc, rd, ra, z, rcode)
    ensures FlagsWord(qr, opcode, aa, tc, rd, ra, z, rcode)
      == qr * 0x8000 + opcode * 0x800 + aa * 0x400 + tc * 0x200 + rd * 0x100 + ra * 0x80 + z * 0x10 + rcode
  {
    assert Pow2(4) == 0x10 && Pow2(7) == 0x80 && Pow2(8) == 0x100 && Pow2(9) == 0x200;
    assert Pow2(10) == 0x400 && Pow2(11) == 0x800 && Pow2(15) == 0x8000;
    assert Shl(qr, 15) == qr * 0x8000 && Shl(opcode, 11) == opcode * 0x800 && Shl(aa, 10) == aa * 0x400;
    assert Shl(tc, 9) == tc * 0x200 && Shl(rd, 8) == rd * 0x100 && Shl(ra, 7) == ra * 0x80 && Shl(z, 4) == z * 0x10;
    // `x` holds the fields or-ed so far, read as a number whose last bit sits at
    // the place of the field or-ed last.
    var x := qr;
    OrAt(x, 15, 0x8000, opcode * 0x800);
    var acc := Or(Shl(qr, 15), Shl(opcode, 11));
    x := x * 16 + opcode;
    assert acc == x * 0x800;
    OrAt(x, 11, 0x800, aa * 0x400);
    acc := Or(acc, Shl(aa, 10));
    x := x * 2 + aa;
    assert acc == x * 0x400;
    OrAt(x, 10, 0x400, tc * 0x200);
    acc := Or(acc, Shl(tc, 9));
    x := x * 2 + tc;
    assert acc == x * 0x200;
    OrAt(x, 9, 0x200, rd * 0x100);
    acc := Or(acc, Shl(rd, 8));
    x := x * 2 + rd;
    assert acc == x * 0x100;
    OrAt(x, 8, 0x100, ra * 0x80);
    acc := Or(acc, Shl(ra, 7));
    x := x * 2 + ra;
    assert acc == x * 0x80;
    OrAt(x, 7, 0x80, z * 0x10);
    acc := Or(acc, Shl(z, 4));
    x := x * 8 + z;
    assert acc == x * 0x10;
    OrAt(x, 4, 0x10, rcode);
  }

  /** The weighted sum of in-width fields fits 16 bits, and shifting and masking picks each field out. */
  lemma FlagsDigits(qr: int, opcode: int, aa: int, tc: int, rd: int, ra: int, z: int, rcode: int, flags: int)
    requires FlagsInWidth(qr, opcode, aa, tc, rd, ra, z, rcode)
    requires flags == qr * 0x8000 + opcode * 0x800 + aa * 0x400 + tc * 0x200 + rd * 0x100 + ra * 0x80 + z * 0x10 + rcode
    ensures 0 <= flags < 0x10000
    ensures flags / 0x8000 % 2 == qr && flags / 0x800 % 16 == opcode && flags / 0x400 % 2 == aa
    ensures flags / 0x200 % 2 == tc && flags / 0x100 % 2 == rd && flags / 0x80 % 2 == ra
    ensures flags / 0x10 % 8 == z && flags % 16 == rcode
  {
    assert flags / 0x8000 == qr;
    assert flags / 0x800 == qr * 16 + opcode;
    assert flags / 0x400 == qr * 32 + opcode * 2 + aa;
    assert flags / 0x200 == qr * 64 + opcode * 4 + aa * 2 + tc;
    assert flags / 0x100 == qr * 128 + opcode * 8 + aa * 4 + tc * 2 + rd;
    assert flags / 0x80 == qr * 256 + opcode * 16 + aa * 8 + tc * 4 + rd * 2 + ra;
    assert flags / 0x10 == qr * 2048 + opcode * 128 + aa * 64 + tc * 32 + rd * 16 + ra * 8 + z;
  }

  /**
   * In-width fields give a word below 65536 from which the shifts and masks of
   * the layout diagram recover every field.
   */
  lemma FlagsLayout(qr: int, opcode: int, aa: int, tc: int, rd: int, ra: int, z: int, rcode: int)
    requires FlagsInWidth(qr, opcode, aa, tc, rd, ra, z, rcode)
    ensures var flags := FlagsWord(qr, opcode, aa, tc, rd, ra, z, rcode);
      && 0 <= flags < 0x10000
      && flags / 0x8000 % 2 == qr && flags / 0x800 % 16 == opcode && flags / 0x400 % 2 == aa
      && flags / 0x200 % 2 == tc && flags / 0x100 % 2 == rd && flags / 0x80 % 2 == ra
      && flags / 0x10 % 8 == z && flags % 16 == rcode
  {
    FlagsSum(qr, opcode, aa, tc, rd, ra, z, rcode);
    FlagsDigits(qr, opcode, aa, tc, rd, ra, z, rcode, FlagsWord(qr, opcode, aa, tc, rd, ra, z, rcode));
  }

  /** A response with recursion desired and available: `0x8180`. */
  lemma StandardResponseFlags()
    ensures FlagsWord(1, 0, 0, 0, 1, 1, 0, 0) == 0x8180
  {
    FlagsSum(1, 0, 0, 0, 1, 1, 0, 0);
  }

  /** The class documentation's example (opcode 1, rd 1, ra 1): `0x0980`. */
  lemma DocstringFlags()
    ensures FlagsWord(0, 1, 0, 0, 1, 1, 0, 0) == 0x0980
  {
    FlagsSum(0, 1, 0, 0, 1, 1, 0, 0);
  }

  /**
   * No field is checked against its width: an opcode of 16 spills into the QR
   * bit, giving the same word as a query with QR set and opcode 0.
   */
  lemma OpcodeOverflowsIntoQr()
    ensures FlagsWord(0, 16, 0, 0, 0, 0, 0, 0) == FlagsWord(1, 0, 0, 0, 0, 0, 0, 0) == 0x8000
  {
    assert Pow2(11) == 0x800 && Pow2(15) == 0x8000;
    FlagsSum(1, 0, 0, 0, 0, 0, 0, 0);
  }

  /** The thirteen fields of a header, as values. */
  datatype HeaderFields = HeaderFields(
    id: int, qr: int, opcode: int, aa: int, tc: int, rd: int, ra: int, z: int, rcode: int,
    qdcount: int, ancount: int, nscount: int, arcount: int)

  /** `struct` format `>HHHHHH`: six 16-bit words. */
  const HeaderFormat: seq<nat> := [2, 2, 2, 2, 2, 2]

  /** A header object; `flags` is derived from the fields once, by the constructor. */
  class DNSHeader {
    var id: int
    var qr: int
    var opcode: int
    var aa: int
    var tc: int
    var rd: int
    var ra: int
    var z: int
    var rcode: int
    var qdcount: int
    var ancount: int
    var nscount: int
    var arcount: int
    var flags: int

    /** The dataclass constructor followed by `__post_init__`. */
    constructor (id: int, qr: int, opcode: int, aa: int, tc: int, rd: int, ra: int, z: int, rcode: int,
                 qdcount: int, ancount: int, nscount: int, arcount: int)
      ensures Fields() == HeaderFields(id, qr, opcode, aa, tc, rd, ra, z, rcode, qdcount, ancount, nscount, arcount)
      ensures FlagsCurrent()
    {
      this.id := id;
      this.qr := qr;
      this.opcode := opcode;
      this.aa := aa;
      this.tc := tc;
      this.rd := rd;
      this.ra := ra;
      this.z := z;
      this.rcode := rcode;
      this.qdcount := qdcount;
      this.ancount := ancount;
      this.nscount := nscount;
      this.arcount := arcount;
      flags := FlagsWord(qr, opcode, aa, tc, rd, ra, z, rcode);
    }

    /** The fields as a value. */
    function Fields(): (f: HeaderFields)
      reads this
    {
      HeaderFields(id, qr, opcode, aa, tc, rd, ra, z, rcode, qdcount, ancount, nscount, arcount)
    }

    /**
     * The stored flags still agree with the fields. Construction establishes it;
     * assigning a field afterwards (the dataclass allows it) does not recompute
     * the flags.
     */
    predicate FlagsCurrent()
      reads this
    {
      flags == FlagsWord(qr, opcode, aa, tc, rd, ra, z, rcode)
    }

    /**
     * `pack_header_to_bytes`: id, the stored flags and the four counts as six
     * big-endian words, failing unless each fits 16 bits.
     */
    function PackHeaderToBytes(): (r: Result<seq<Byte>>)
      reads this
      ensures r.Ok? <==> Fits(id, 2) && Fits(flags, 2) && Fits(qdcount, 2) && Fits(ancount, 2)
                         && Fits(nscount, 2) && Fits(arcount, 2)
      ensures r.Err? ==> r.error == StructError
      ensures r.Ok? ==> |r.value| == 12
      ensures r.Ok? ==> Unpack(r.value, HeaderFormat) == Ok([id, flags, qdcount, ancount, nscount, arcount])
    {
      var words := [id, flags, qdcount, ancount, nscount, arcount];
      var r := Pack(words, HeaderFormat);
      if r.Ok? then
        UnpackPack(words, HeaderFormat);
        r
      else
        r
    }
  }
}
