/**
 * `header_parser`: read the 12-octet header of a query and build the header
 * of the reply to it. QR, QDCOUNT and ANCOUNT are forced to 1, RCODE is
 * derived from the opcode, and the counts of authority and additional
 * records are copied.
 */
module HeaderParser {
  import opened Wire
  import opened HeaderCreator

  /** Every field within the width the wire layout gives it. */
  predicate InWidths(h: HeaderFields)
  {
    && Fits(h.id, 2) && FlagsInWidth(h.qr, h.opcode, h.aa, h.tc, h.rd, h.ra, h.z, h.rcode)
    && Fits(h.qdcount, 2) && Fits(h.ancount, 2) && Fits(h.nscount, 2) && Fits(h.arcount, 2)
  }

  /**
   * The reply policy: QR is 1, one question and one answer, and RCODE is 0
   * (no error) for a standard query and 4 (not implemented) for any other
   * opcode.
   */
  predicate IsReply(h: HeaderFields)
  {
    h.qr == 1 && h.qdcount == 1 && h.ancount == 1 && h.rcode == (if h.opcode == 0 then 0 else 4)
  }

  /** The reply to a header: its fields with the reply policy applied. */
  function AsReply(h: HeaderFields): (r: HeaderFields)
    ensures IsReply(r)
    ensures r.id == h.id && r.opcode == h.opcode && r.aa == h.aa && r.tc == h.tc
    ensures r.rd == h.rd && r.ra == h.ra && r.z == h.z && r.nscount == h.nscount && r.arcount == h.arcount
    ensures IsReply(h) ==> r == h
  {
    h.(qr := 1, qdcount := 1, ancount := 1, rcode := if h.opcode == 0 then 0 else 4)
  }

  /**
   * The fields `header_parser` passes to the constructor: fewer than 12 octets
   * fail; otherwise only the first 12 octets are read, and the result is a
   * reply whose fields all fit the wire.
   */
  function ParsedFields(buffer: seq<Byte>): (r: Result<HeaderFields>)
    ensures r.Err? <==> |buffer| < 12
    ensures r.Err? ==> r.error == ShortHeader
    ensures r.Ok? ==> InWidths(r.value) && IsReply(r.value)
  {
    if |buffer| < 12 then Err(ShortHeader)
    else
      assert Size(HeaderFormat) == 12;
      var words := Unpack(buffer[..12], HeaderFormat).value;
      var flags := words[1];
      var opcode := flags / 0x800 % 16;
      Ok(HeaderFields(
        id := words[0], qr := 1, opcode := opcode,
        aa := flags / 0x400 % 2, tc := flags / 0x200 % 2, rd := flags / 0x100 % 2, ra := flags / 0x80 % 2,
        z := flags / 0x10 % 8, rcode := if opcode == 0 then 0 else 4,
        qdcount := 1, ancount := 1, nscount := words[4], arcount := words[5]))
  }

  /** Octets after the twelfth change nothing. */
  lemma ParsedFieldsIgnoreRest(buffer: seq<Byte>, rest: seq<Byte>)
    requires |buffer| >= 12
    ensures ParsedFields(buffer + rest) == ParsedFields(buffer)
  {
    assert (buffer + rest)[..12] == buffer[..12];
  }

  /** ID, NSCOUNT and ARCOUNT are the big-endian words at octets 0-1, 8-9 and 10-11. */
  lemma ParsedFieldsCopyWords(buffer: seq<Byte>)
    requires |buffer| >= 12
    ensures ParsedFields(buffer).value.id == UnpackUInt(buffer[0..2])
    ensures ParsedFields(buffer).value.nscount == UnpackUInt(buffer[8..10])
    ensures ParsedFields(buffer).value.arcount == UnpackUInt(buffer[10..12])
  {
    var b := buffer[..12];
    assert Size(HeaderFormat) == 12;
    assert Offset(HeaderFormat, 0) == 0;
    assert Offset(HeaderFormat, 4) == 8 by {
      assert HeaderFormat[..4] == [2, 2, 2, 2];
    }
    assert Offset(HeaderFormat, 5) == 10 by {
      assert HeaderFormat[..5] == [2, 2, 2, 2, 2];
    }
    UnpackField(b, HeaderFormat, 0);
    UnpackField(b, HeaderFormat, 4);
    UnpackField(b, HeaderFormat, 5);
    assert b[0..2] == buffer[0..2] && b[8..10] == buffer[8..10] && b[10..12] == buffer[10..12];
  }

  /**
   * The flag fields are cut from the big-endian word at octets 2-3 by shift and
   * mask: OPCODE from bits 11-14, AA, TC, RD and RA from bits 10, 9, 8 and 7, Z
   * from bits 4-6; QR, QDCOUNT, ANCOUNT and RCODE follow the reply policy.
   */
  lemma ParsedFlagFields(buffer: seq<Byte>)
    requires |buffer| >= 12
    ensures var w := UnpackUInt(buffer[2..4]);
      var h := ParsedFields(buffer).value;
      && h.opcode == w / 0x800 % 16
      && h.aa == w / 0x400 % 2 && h.tc == w / 0x200 % 2
      && h.rd == w / 0x100 % 2 && h.ra == w / 0x80 % 2
      && h.z == w / 0x10 % 8
      && h.qr == 1 && h.qdcount == 1 && h.ancount == 1
      && h.rcode == (if h.opcode == 0 then 0 else 4)
  {
    var b := buffer[..12];
    assert Size(HeaderFormat) == 12;
    assert Offset(HeaderFormat, 1) == 2 by {
      assert HeaderFormat[..1] == [2];
    }
    UnpackField(b, HeaderFormat, 1);
    assert b[2..4] == buffer[2..4];
  }

  /**
   * Parsing what a header packs to, when its flags are current and its fields
   * fit, gives back its fields with the reply policy applied: every field the
   * parser reads survives the round trip.
   */
  lemma PackThenParse(h: DNSHeader)
    requires h.FlagsCurrent() && InWidths(h.Fields())
    ensures h.PackHeaderToBytes().Ok?
    ensures ParsedFields(h.PackHeaderToBytes().value) == Ok(AsReply(h.Fields()))
  {
    FlagsLayout(h.qr, h.opcode, h.aa, h.tc, h.rd, h.ra, h.z, h.rcode);
    var b := h.PackHeaderToBytes().value;
    assert b[..12] == b;
  }

  /** A header that already follows the reply policy survives the round trip unchanged. */
  lemma ReplyRoundTrip(h: DNSHeader)
    requires h.FlagsCurrent() && InWidths(h.Fields()) && IsReply(h.Fields())
    ensures h.PackHeaderToBytes().Ok?
    ensures ParsedFields(h.PackHeaderToBytes().value) == Ok(h.Fields())
  {
    PackThenParse(h);
  }

  /**
   * `header_parser`: the header object of the reply, built by the constructor,
   * so its flags are computed from the parsed fields and it always packs.
   */
  method ParseHeader(buffer: seq<Byte>) returns (r: Result<DNSHeader>)
    ensures r.Err? <==> |buffer| < 12
    ensures r.Err? ==> r.error == ShortHeader
    ensures r.Ok? ==> fresh(r.value) && r.value.FlagsCurrent() && r.value.Fields() == ParsedFields(buffer).value
    ensures r.Ok? ==> r.value.PackHeaderToBytes().Ok?
  {
    var parsed := ParsedFields(buffer);
    if parsed.Err? {
      return Err(parsed.error);
    }
    var f := parsed.value;
    var h := new DNSHeader(f.id, f.qr, f.opcode, f.aa, f.tc, f.rd, f.ra, f.z, f.rcode,
                           f.qdcount, f.ancount, f.nscount, f.arcount);
    FlagsLayout(f.qr, f.opcode, f.aa, f.tc, f.rd, f.ra, f.z, f.rcode);
    return Ok(h);
  }
}
