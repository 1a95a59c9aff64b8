/**
 * The question entry of section 4.1.2 of RFC 1035 as `DNSQuestion` packs it:
 * the encoded name, then QTYPE and QCLASS as big-endian 16-bit words.
 */
module QuestionCreator {
  import opened Wire
  import opened UrlSequenceCreator

  /**
   * The name a question holds: text when the codec builds the question, the
   * raw wire octets when `question_parser` builds it.
   */
  datatype QName = Text(domain: string) | Raw(octets: seq<Byte>)

  datatype DNSQuestion = DNSQuestion(qname: QName, qtype: int, qclass: int)

  /** The dataclass defaults. */
  const DefaultQuestion := DNSQuestion(Text("google.com"), 1, 1)

  /** `struct` format `>HH`. */
  const QuestionFormat: seq<nat> := [2, 2]

  /**
   * `pack_question_to_bytes`: the encoded name followed by QTYPE and QCLASS.
   * A raw name cannot be encoded (`bytes.split` with a `str` separator is a
   * TypeError); a name that fails to encode fails before the words are packed.
   */
  function PackQuestionToBytes(q: DNSQuestion): (r: Result<seq<Byte>>)
    ensures q.qname.Raw? ==> r == Err(NameNotText)
    ensures q.qname.Text? ==>
      (r.Ok? <==> EncodedName(q.qname.domain).Ok? && Fits(q.qtype, 2) && Fits(q.qclass, 2))
    ensures q.qname.Text? && EncodedName(q.qname.domain).Err? ==> r == EncodedName(q.qname.domain)
    ensures q.qname.Text? && EncodedName(q.qname.domain).Ok? && r.Err? ==> r.error == StructError
    ensures r.Ok? ==>
      var name := EncodedName(q.qname.domain).value;
      && |r.value| == |name| + 4
      && r.value[..|name|] == name
      && Unpack(r.value[|name|..], QuestionFormat) == Ok([q.qtype, q.qclass])
  {
    match q.qname
    case Raw(_) => Err(NameNotText)
    case Text(domain) =>
      var name :- EncodedName(domain);
      var words :- Pack([q.qtype, q.qclass], QuestionFormat);
      UnpackPack([q.qtype, q.qclass], QuestionFormat);
      assert (name + words)[|name|..] == words;
      Ok(name + words)
  }

  /** A text name that encodes, followed by the packed words. */
  lemma PackTextQuestion(q: DNSQuestion)
    requires q.qname.Text? && EncodedName(q.qname.domain).Ok?
    requires Fits(q.qtype, 2) && Fits(q.qclass, 2)
    ensures PackQuestionToBytes(q)
      == Ok(EncodedName(q.qname.domain).value + Pack([q.qtype, q.qclass], QuestionFormat).value)
  {
  }

  /** The defaults pack to `\x06google\x03com\x00\x00\x01\x00\x01`. */
  lemma DefaultQuestionBytes(q: DNSQuestion)
    requires q == DefaultQuestion
    ensures PackQuestionToBytes(q) == Ok([6, 103, 111, 111, 103, 108, 101, 3, 99, 111, 109, 0] + [0, 1, 0, 1])
  {
    GoogleExample(q.qname.domain);
    OneOneWords();
    PackTextQuestion(q);
  }

  /** QTYPE 1 and QCLASS 1 (A, IN) pack to `\x00\x01\x00\x01`. */
  lemma OneOneWords()
    ensures Pack([1, 1], QuestionFormat) == Ok([0, 1, 0, 1])
  {
    PackSmall(1, 2);
    assert seq(1, _ => 0) + [1] == [0, 1];
    PackOne(1, 2);
    assert Pack([1], [2]) == Ok([0, 1]);
    PackAppend([1], [2], [1], [2]);
    var one: seq<int> := [1];
    var two: seq<nat> := [2];
    assert one + one == [1, 1] && two + two == QuestionFormat;
    var bytes: seq<Byte> := [0, 1];
    assert bytes + bytes == [0, 1, 0, 1];
  }
}
