/**
 * `DNSAnswer`: one resource record (section 4.1.3 of RFC 1035) and its packing.
 * The name is already in wire form and is copied unchanged.
 */
module AnswerCreator {
  import opened Wire

  /** A resource record: wire-form name, TYPE, CLASS, TTL, RDLENGTH and RDATA. */
  datatype DNSAnswer = DNSAnswer(
    name: seq<Byte>,
    rtype: int,
    rclass: int,
    ttl: int,
    length: int,
    data: seq<Byte>)

  /** `">HHIH"`: TYPE, CLASS and RDLENGTH take two octets, TTL four. */
  const AnswerFormat: seq<nat> := [2, 2, 4, 2]

  /**
   * `pack_answer_to_bytes`: the name, the four fixed fields big-endian, then
   * the data. A field out of range fails; RDLENGTH is not compared with the data.
   */
  function PackAnswerToBytes(a: DNSAnswer): (r: Result<seq<Byte>>)
    ensures r.Ok? <==> Fits(a.rtype, 2) && Fits(a.rclass, 2) && Fits(a.ttl, 4) && Fits(a.length, 2)
    ensures r.Err? ==> r.error == StructError
    ensures r.Ok? ==>
      && |r.value| == |a.name| + 10 + |a.data|
      && r.value[..|a.name|] == a.name
      && Unpack(r.value[|a.name|..|a.name| + 10], AnswerFormat) == Ok([a.rtype, a.rclass, a.ttl, a.length])
      && r.value[|a.name| + 10..] == a.data
  {
    var values := [a.rtype, a.rclass, a.ttl, a.length];
    assert forall i :: 0 <= i < 4 ==> (Fits(values[i], AnswerFormat[i]) <==>
      (i == 0 && Fits(a.rtype, 2)) || (i == 1 && Fits(a.rclass, 2)) ||
      (i == 2 && Fits(a.ttl, 4)) || (i == 3 && Fits(a.length, 2)));
    var fixed :- Pack(values, AnswerFormat);
    UnpackPack(values, AnswerFormat);
    var r := a.name + fixed + a.data;
    assert r[|a.name|..|a.name| + 10] == fixed;
    Ok(r)
  }

  /** The record's length field may disagree with its data: packing still succeeds. */
  lemma LengthNotChecked(a: DNSAnswer, length: int)
    requires PackAnswerToBytes(a).Ok? && Fits(length, 2)
    ensures PackAnswerToBytes(a.(length := length)).Ok?
    ensures |PackAnswerToBytes(a.(length := length)).value| == |PackAnswerToBytes(a).value|
  {
  }

  /** The packed record is the name, the packed fixed fields and the data, in that order. */
  lemma PackAnswerParts(a: DNSAnswer)
    requires PackAnswerToBytes(a).Ok?
    ensures Pack([a.rtype, a.rclass, a.ttl, a.length], AnswerFormat).Ok?
    ensures PackAnswerToBytes(a).value
      == a.name + Pack([a.rtype, a.rclass, a.ttl, a.length], AnswerFormat).value + a.data
  {
  }

  /** TYPE A, CLASS IN, TTL 69 and RDLENGTH 4 pack to `\x00\x01\x00\x01\x00\x00\x00\x45\x00\x04`. */
  lemma ExampleFixedFields()
    ensures Pack([1, 1, 69, 4], AnswerFormat) == Ok([0, 1, 0, 1, 0, 0, 0, 69, 0, 4])
  {
    var one: seq<int> := [1];
    var two: seq<nat> := [2];
    PackSmall(1, 2);
    assert seq(1, _ => 0) + [1] == [0, 1];
    PackOne(1, 2);
    PackAppend(one, two, one, two);
    assert one + one == [1, 1] && two + two == [2, 2];
    var b01: seq<Byte> := [0, 1];
    assert b01 + b01 == [0, 1, 0, 1];
    TtlLengthWords();
    var v1: seq<int> := [1, 1];
    var v2: seq<int> := [69, 4];
    var w1: seq<nat> := [2, 2];
    var w2: seq<nat> := [4, 2];
    PackAppend(v1, w1, v2, w2);
    assert v1 + v2 == [1, 1, 69, 4] && w1 + w2 == AnswerFormat;
    var f1: seq<Byte> := [0, 1, 0, 1];
    var f2: seq<Byte> := [0, 0, 0, 69, 0, 4];
    assert f1 + f2 == [0, 1, 0, 1, 0, 0, 0, 69, 0, 4];
  }

  /** TTL 69 and RDLENGTH 4 pack to `\x00\x00\x00\x45\x00\x04`. */
  lemma TtlLengthWords()
    ensures Pack([69, 4], [4, 2]) == Ok([0, 0, 0, 69, 0, 4])
  {
    PackSmall(69, 4);
    assert seq(3, _ => 0) + [69] == [0, 0, 0, 69];
    PackOne(69, 4);
    PackSmall(4, 2);
    assert seq(1, _ => 0) + [4] == [0, 4];
    PackOne(4, 2);
    var ttl: seq<int> := [69];
    var len: seq<int> := [4];
    var four: seq<nat> := [4];
    var two: seq<nat> := [2];
    PackAppend(ttl, four, len, two);
    assert ttl + len == [69, 4] && four + two == [4, 2];
    var b69: seq<Byte> := [0, 0, 0, 69];
    var b4: seq<Byte> := [0, 4];
    assert b69 + b4 == [0, 0, 0, 69, 0, 4];
  }
}
