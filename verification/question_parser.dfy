/**
 * `question_parser`: the question that follows the 12-octet header. The name
 * is taken as raw octets up to and including the first zero octet (pointers
 * are not followed), then QTYPE and QCLASS are read from the next four octets.
 */
module QuestionParser {
  import opened Wire
  import opened UrlSequenceCreator
  import opened NameRoundTrip
  import opened QuestionCreator

  /** `s.index(b"\x00")`: the position of the first zero octet, or `|s|` when there is none. */
  function FirstZero(s: seq<Byte>): (i: nat)
    ensures i <= |s|
    ensures i < |s| ==> s[i] == 0
    ensures forall j :: 0 <= j < i ==> s[j] != 0
  {
    if s == [] then 0
    else if s[0] == 0 then 0
    else 1 + FirstZero(s[1..])
  }

  /**
   * `question_parser`: nothing after the header fails, no zero octet after the
   * header fails, fewer than four octets after that zero fail in `unpack`.
   */
  function ParseQuestion(buffer: seq<Byte>): (r: Result<DNSQuestion>)
    ensures |buffer| <= 12 ==> r == Err(MissingQuestion)
    ensures |buffer| > 12 && FirstZero(buffer[12..]) == |buffer| - 12 ==> r == Err(NoTerminator)
    ensures |buffer| > 12 && FirstZero(buffer[12..]) < |buffer| - 12 ==>
      (r.Ok? <==> 12 + FirstZero(buffer[12..]) + 5 <= |buffer|)
    ensures |buffer| > 12 && FirstZero(buffer[12..]) < |buffer| - 12 && r.Err? ==> r.error == StructError
    ensures r.Ok? ==>
      var end := 12 + FirstZero(buffer[12..]);
      && r.value.qname == Raw(buffer[12..end + 1])
      && Unpack(buffer[end + 1..end + 5], QuestionFormat) == Ok([r.value.qtype, r.value.qclass])
  {
    if |buffer| <= 12 then Err(MissingQuestion)
    else
      var rest := buffer[12..];
      var domainEnd := FirstZero(rest);
      if domainEnd == |rest| then Err(NoTerminator)
      else
        var words :- Unpack(Slice(rest, domainEnd + 1, domainEnd + 5), QuestionFormat);
        assert |words| == 2;
        assert Slice(rest, domainEnd + 1, domainEnd + 5) == buffer[12 + domainEnd + 1..12 + domainEnd + 5];
        assert [words[0], words[1]] == words;
        Ok(DNSQuestion(Raw(rest[..domainEnd + 1]), words[0], words[1]))
  }

  /** A zero octet with no zero before it is the first one. */
  lemma {:induction false} FirstZeroAt(s: seq<Byte>, k: nat)
    requires k < |s| && s[k] == 0
    requires forall j :: 0 <= j < k ==> s[j] != 0
    ensures FirstZero(s) == k
  {
    if k > 0 {
      FirstZeroAt(s[1..], k - 1);
    }
  }

  /**
   * Round trip: a header, the packed question and any further octets parse
   * back to the question, its name now the raw encoding, when the name is a
   * host name (the encoding then has no zero octet before its terminator).
   */
  lemma QuestionRoundTrip(header: seq<Byte>, q: DNSQuestion, rest: seq<Byte>)
    requires |header| == 12
    requires q.qname.Text? && IsHostName(q.qname.domain)
    requires Fits(q.qtype, 2) && Fits(q.qclass, 2)
    ensures EncodedName(q.qname.domain).Ok? && PackQuestionToBytes(q).Ok?
    ensures ParseQuestion(header + PackQuestionToBytes(q).value + rest)
      == Ok(DNSQuestion(Raw(EncodedName(q.qname.domain).value), q.qtype, q.qclass))
  {
    HostNameWire(q.qname.domain);
    var name := EncodedName(q.qname.domain).value;
    var packed := PackQuestionToBytes(q).value;
    var buffer := header + packed + rest;
    var tail := buffer[12..];
    assert tail == packed + rest;
    assert packed == name + packed[|name|..];
    forall j | 0 <= j < |name| - 1
      ensures tail[j] != 0
    {
      assert tail[j] == name[j];
    }
    FirstZeroAt(tail, |name| - 1);
    var end := 12 + |name| - 1;
    assert buffer[12..end + 1] == name;
    assert buffer[end + 1..end + 5] == packed[|name|..];
    ParsedQuestion(buffer, name, q.qtype, q.qclass);
  }

  /**
   * A question is read back once its name, ending in the first zero octet after
   * the header, is followed by its two packed words.
   */
  lemma ParsedQuestion(buffer: seq<Byte>, name: seq<Byte>, qtype: int, qclass: int)
    requires |name| >= 1 && 12 + |name| + 4 <= |buffer|
    requires FirstZero(buffer[12..]) == |name| - 1
    requires buffer[12..12 + |name|] == name
    requires Unpack(buffer[12 + |name|..12 + |name| + 4], QuestionFormat) == Ok([qtype, qclass])
    ensures ParseQuestion(buffer) == Ok(DNSQuestion(Raw(name), qtype, qclass))
  {
    var parsed := ParseQuestion(buffer);
    assert parsed.Ok?;
    var words := [parsed.value.qtype, parsed.value.qclass];
    assert words == [qtype, qclass];
  }
}
