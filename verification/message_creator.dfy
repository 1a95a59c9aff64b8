/**
 * `DNSMessage`: a header object, one question and one answer, packed one after
 * the other. The sections chain: the question starts at offset 12 and the
 * answer right after the packed question.
 */
module MessageCreator {
  import opened Wire
  import opened CommonModule
  import opened UrlSequenceCreator
  import opened NameRoundTrip
  import opened HeaderCreator
  import opened HeaderParser
  import opened QuestionCreator
  import opened QuestionParser
  import opened AnswerCreator
  import opened AnswerParser

  /** A message: the header is an object (its flags are stored), the other sections are values. */
  datatype DNSMessage = DNSMessage(header: DNSHeader, question: DNSQuestion, answer: DNSAnswer)

  /**
   * `pack_message_to_bytes`: header, question and answer octets in that order.
   * The sections are packed in that order too, so the first failure is reported.
   */
  function PackMessageToBytes(m: DNSMessage): (r: Result<seq<Byte>>)
    reads m.header
    ensures r.Ok? <==>
      m.header.PackHeaderToBytes().Ok? && PackQuestionToBytes(m.question).Ok? && PackAnswerToBytes(m.answer).Ok?
    ensures m.header.PackHeaderToBytes().Err? ==> r == Err(StructError)
    ensures m.header.PackHeaderToBytes().Ok? && PackQuestionToBytes(m.question).Err? ==>
      r == Err(PackQuestionToBytes(m.question).error)
    ensures (m.header.PackHeaderToBytes().Ok? && PackQuestionToBytes(m.question).Ok? &&
             PackAnswerToBytes(m.answer).Err?) ==> r == Err(StructError)
    ensures r.Ok? ==>
      var question := PackQuestionToBytes(m.question).value;
      var answer := PackAnswerToBytes(m.answer).value;
      && |r.value| == 12 + |question| + |answer|
      && r.value[..12] == m.header.PackHeaderToBytes().value
      && r.value[12..12 + |question|] == question
      && r.value[12 + |question|..] == answer
  {
    var header :- m.header.PackHeaderToBytes();
    var question :- PackQuestionToBytes(m.question);
    var answer :- PackAnswerToBytes(m.answer);
    var r := header + question + answer;
    assert r[..12] == header;
    assert r[12..12 + |question|] == question;
    Ok(r)
  }

  /** The packed message starts with a header that parses to the reply form of the message's header. */
  lemma MessageHeaderParses(m: DNSMessage)
    requires m.header.FlagsCurrent() && InWidths(m.header.Fields())
    requires PackMessageToBytes(m).Ok?
    ensures ParsedFields(PackMessageToBytes(m).value) == Ok(AsReply(m.header.Fields()))
  {
    var bytes := PackMessageToBytes(m).value;
    PackThenParse(m.header);
    ParsedFieldsIgnoreRest(bytes[..12], bytes[12..]);
    assert bytes[..12] + bytes[12..] == bytes;
  }

  /**
   * The question section starts at offset 12: parsing the packed message gives
   * back the question, its name as encoded octets, for a host name.
   */
  lemma MessageQuestionParses(m: DNSMessage)
    requires m.question.qname.Text? && IsHostName(m.question.qname.domain)
    requires PackMessageToBytes(m).Ok?
    ensures EncodedName(m.question.qname.domain).Ok?
    ensures ParseQuestion(PackMessageToBytes(m).value)
      == Ok(DNSQuestion(Raw(EncodedName(m.question.qname.domain).value), m.question.qtype, m.question.qclass))
  {
    var bytes := PackMessageToBytes(m).value;
    var header := m.header.PackHeaderToBytes().value;
    var question := PackQuestionToBytes(m.question).value;
    var answer := PackAnswerToBytes(m.answer).value;
    assert bytes == header + question + answer;
    QuestionRoundTrip(header, m.question, answer);
  }

  /**
   * The answer section starts right after the packed question: parsing there
   * gives back the answer when its name is uncompressed and its data matches
   * its length.
   */
  lemma MessageAnswerParses(m: DNSMessage, fuel: nat)
    requires var name := m.answer.name;
      && |name| >= 1 && name[|name| - 1] == 0
      && forall j :: 0 <= j < |name| - 1 ==> !IsStop(name[j])
    requires |m.answer.data| <= m.answer.length
    requires PackMessageToBytes(m).Ok?
    ensures ParseAnswer(PackMessageToBytes(m).value, 12 + |PackQuestionToBytes(m.question).value|, fuel) == Ok(m.answer)
  {
    var header := m.header.PackHeaderToBytes().value;
    var question := PackQuestionToBytes(m.question).value;
    var answer := PackAnswerToBytes(m.answer).value;
    var prefix := header + question;
    assert PackMessageToBytes(m).value == prefix + answer + [];
    AnswerRoundTrip(prefix, m.answer, [], fuel);
  }

  /**
   * The record of the static reply in `src/main.py`: the name `google.com` in
   * wire form and the address 8.8.8.8. That reply gives no type, class, TTL or
   * length, so A, IN, TTL 69 and RDLENGTH 4 are chosen here.
   */
  const GoogleAnswer := DNSAnswer([6, 103, 111, 111, 103, 108, 101, 3, 99, 111, 109, 0], 1, 1, 69, 4, [8, 8, 8, 8])

  /**
   * End to end: with the default question and the static reply's record, the message
   * is the header octets, then `\x06google\x03com\x00\x00\x01\x00\x01`, then
   * the same name followed by `\x00\x01\x00\x01\x00\x00\x00\x45\x00\x04\x08\x08\x08\x08`.
   */
  lemma EndToEnd(m: DNSMessage)
    requires m.question == DefaultQuestion && m.answer == GoogleAnswer
    requires m.header.PackHeaderToBytes().Ok?
    ensures PackMessageToBytes(m) == Ok(m.header.PackHeaderToBytes().value
      + ([6, 103, 111, 111, 103, 108, 101, 3, 99, 111, 109, 0] + [0, 1, 0, 1])
      + ([6, 103, 111, 111, 103, 108, 101, 3, 99, 111, 109, 0] + [0, 1, 0, 1, 0, 0, 0, 69, 0, 4] + [8, 8, 8, 8]))
  {
    DefaultQuestionBytes(m.question);
    ExampleFixedFields();
    PackAnswerParts(m.answer);
  }
}
