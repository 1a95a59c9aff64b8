/**
 * `answer_parser`: one resource record read at an offset. The name goes
 * through `extract_name` (pointers expanded), and the fixed fields are read
 * from just past the name as it is written on the wire.
 */
module AnswerParser {
  import opened Wire
  import opened CommonModule
  import opened AnswerCreator

  /**
   * `answer_parser(buffer, start)` with `fuel` pointer hops for the name. Name
   * errors propagate; fewer than ten octets after the name fail in `unpack`;
   * the data is whatever of RDLENGTH octets the buffer still holds.
   */
  function ParseAnswer(buffer: seq<Byte>, start: nat, fuel: nat): (r: Result<DNSAnswer>)
    ensures Extract(buffer, start, fuel).Err? ==> r == Err(Extract(buffer, start, fuel).error)
    ensures Extract(buffer, start, fuel).Ok? ==>
      var wireEnd := start + Extract(buffer, start, fuel).value.1 + 1;
      && (r.Ok? <==> wireEnd + 10 <= |buffer|)
      && (r.Err? ==> r.error == StructError)
      && (r.Ok? ==>
        && r.value.name == Extract(buffer, start, fuel).value.0
        && Unpack(buffer[wireEnd..wireEnd + 10], AnswerFormat)
           == Ok([r.value.rtype, r.value.rclass, r.value.ttl, r.value.length])
        && |r.value.data| == Min(r.value.length, |buffer| - (wireEnd + 10))
        && r.value.data == buffer[wireEnd + 10..wireEnd + 10 + |r.value.data|])
  {
    var (name, count) :- Extract(buffer, start, fuel);
    var nameEnd := start + count + 1;
    var dataStart := nameEnd + 10;
    var fields :- Unpack(Slice(buffer, nameEnd, dataStart), AnswerFormat);
    assert Slice(buffer, nameEnd, dataStart) == buffer[nameEnd..dataStart];
    assert [fields[0], fields[1], fields[2], fields[3]] == fields;
    var data := Slice(buffer, dataStart, dataStart + fields[3]);
    assert data == buffer[dataStart..dataStart + |data|];
    Ok(DNSAnswer(name, fields[0], fields[1], fields[2], fields[3], data))
  }

  /**
   * Round trip: a record whose name is written uncompressed (non-stop octets,
   * then a zero) parses back from the offset it was packed at. Its data must
   * match its length, or, at the very end of the buffer, be no longer than it.
   */
  lemma AnswerRoundTrip(prefix: seq<Byte>, a: DNSAnswer, suffix: seq<Byte>, fuel: nat)
    requires |a.name| >= 1 && a.name[|a.name| - 1] == 0
    requires forall j :: 0 <= j < |a.name| - 1 ==> !IsStop(a.name[j])
    requires PackAnswerToBytes(a).Ok?
    requires |a.data| == a.length || (suffix == [] && |a.data| <= a.length)
    ensures ParseAnswer(prefix + PackAnswerToBytes(a).value + suffix, |prefix|, fuel) == Ok(a)
  {
    var packed := PackAnswerToBytes(a).value;
    var fixed := packed[|a.name|..|a.name| + 10];
    assert packed == a.name + fixed + a.data;
    RecordRoundTrip(prefix, a, fixed, suffix, fuel);
  }

  /** The round trip over the record's three parts: name, ten fixed octets, data. */
  lemma RecordRoundTrip(prefix: seq<Byte>, a: DNSAnswer, fixed: seq<Byte>, suffix: seq<Byte>, fuel: nat)
    requires |a.name| >= 1 && a.name[|a.name| - 1] == 0
    requires forall j :: 0 <= j < |a.name| - 1 ==> !IsStop(a.name[j])
    requires |fixed| == 10 && Unpack(fixed, AnswerFormat) == Ok([a.rtype, a.rclass, a.ttl, a.length])
    requires |a.data| == a.length || (suffix == [] && |a.data| <= a.length)
    ensures ParseAnswer(prefix + (a.name + fixed + a.data) + suffix, |prefix|, fuel) == Ok(a)
  {
    var buffer := prefix + (a.name + fixed + a.data) + suffix;
    var wireEnd := |prefix| + |a.name|;
    assert buffer == prefix + a.name + (fixed + a.data + suffix);
    ExtractPlainName(prefix, a.name, fixed + a.data + suffix, fuel);
    assert buffer[wireEnd..wireEnd + 10] == fixed;
    assert buffer[wireEnd + 10..wireEnd + 10 + |a.data|] == a.data;
    assert |a.data| == Min(a.length, |buffer| - (wireEnd + 10));
    ParsedAnswer(buffer, |prefix|, a, fuel);
  }

  /**
   * A record is read back once its name extracts whole, its fixed fields sit
   * right after the name and its data follows them, cut at the buffer's end.
   */
  lemma ParsedAnswer(buffer: seq<Byte>, start: nat, a: DNSAnswer, fuel: nat)
    requires Extract(buffer, start, fuel) == Ok((a.name, |a.name| - 1))
    requires start + |a.name| + 10 <= |buffer|
    requires Unpack(buffer[start + |a.name|..start + |a.name| + 10], AnswerFormat)
      == Ok([a.rtype, a.rclass, a.ttl, a.length])
    requires |a.data| == Min(a.length, |buffer| - (start + |a.name| + 10))
    requires buffer[start + |a.name| + 10..start + |a.name| + 10 + |a.data|] == a.data
    ensures ParseAnswer(buffer, start, fuel) == Ok(a)
  {
    var wireEnd := start + |a.name|;
    var fixed := buffer[wireEnd..wireEnd + 10];
    assert start + Extract(buffer, start, fuel).value.1 + 1 == wireEnd;
    var parsed := ParseAnswer(buffer, start, fuel);
    assert parsed.Ok?;
    var r := parsed.value;
    assert r.name == a.name;
    assert Unpack(fixed, AnswerFormat) == Ok([r.rtype, r.rclass, r.ttl, r.length]);
    assert [r.rtype, r.rclass, r.ttl, r.length] == [a.rtype, a.rclass, a.ttl, a.length];
    assert |r.data| == |a.data|;
    assert r.data == a.data;
  }

  /**
   * A buffer that ends before RDLENGTH octets of data is accepted: the record
   * comes back with fewer data octets than its length field says.
   */
  lemma ShortDataAccepted(prefix: seq<Byte>, a: DNSAnswer, fuel: nat)
    requires |a.name| >= 1 && a.name[|a.name| - 1] == 0
    requires forall j :: 0 <= j < |a.name| - 1 ==> !IsStop(a.name[j])
    requires PackAnswerToBytes(a).Ok? && |a.data| < a.length
    ensures ParseAnswer(prefix + PackAnswerToBytes(a).value, |prefix|, fuel).Ok?
    ensures |ParseAnswer(prefix + PackAnswerToBytes(a).value, |prefix|, fuel).value.data|
      < ParseAnswer(prefix + PackAnswerToBytes(a).value, |prefix|, fuel).value.length
  {
    AnswerRoundTrip(prefix, a, [], fuel);
    assert prefix + PackAnswerToBytes(a).value + [] == prefix + PackAnswerToBytes(a).value;
  }

  /**
   * A record whose name is a lone pointer: the name comes back expanded, while
   * the fixed fields are read just past the two pointer octets.
   */
  lemma CompressedAnswerName(buffer: seq<Byte>, start: nat, fuel: nat)
    requires start + 12 <= |buffer| && IsPointer(buffer[start])
    requires Extract(buffer, PointerOffset(buffer, start), fuel).Ok?
    ensures ParseAnswer(buffer, start, fuel + 1).Ok?
    ensures var r := ParseAnswer(buffer, start, fuel + 1).value;
      && r.name == Extract(buffer, PointerOffset(buffer, start), fuel).value.0
      && Unpack(buffer[start + 2..start + 12], AnswerFormat) == Ok([r.rtype, r.rclass, r.ttl, r.length])
  {
    PointerCopiesName(buffer, start, fuel);
  }
}
