/**
 * Name encoding as `encode_name` does it: split the domain on ".", emit for
 * every part (empty parts included) the character `chr(len(part))` and the part,
 * then one "\x00", and encode the resulting text as UTF-8. Nothing checks label
 * lengths, so the wire form is the RFC 1035 label sequence only for short ASCII
 * labels; the lemmas below say exactly when.
 */
module UrlSequenceCreator {
  import opened Wire

  /** Python's `s.split(".")`: the dot-free pieces between dots, empty pieces included. */
  function Split(s: string): (parts: seq<string>)
    ensures |parts| >= 1
    ensures forall i :: 0 <= i < |parts| ==> '.' !in parts[i]
  {
    if s == [] then [""]
    else
      var rest := Split(s[1..]);
      if s[0] == '.' then [""] + rest
      else [[s[0]] + rest[0]] + rest[1..]
  }

  /** Python's `".".join(parts)`. */
  function Join(parts: seq<string>): (s: string)
    requires |parts| >= 1
  {
    if |parts| == 1 then parts[0] else parts[0] + "." + Join(parts[1..])
  }

  /** Joining the pieces gives back the string that was split. */
  lemma {:induction false} JoinSplit(s: string)
    ensures Join(Split(s)) == s
  {
    if s != [] {
      JoinSplit(s[1..]);
      var rest := Split(s[1..]);
      if s[0] != '.' && |rest| > 1 {
        assert Join(Split(s)) == ([s[0]] + rest[0]) + "." + Join(rest[1..]);
      }
    }
  }

  /** Splitting dot-free pieces joined by dots gives back the pieces. */
  lemma {:induction false} SplitJoin(parts: seq<string>)
    requires |parts| >= 1
    requires forall i :: 0 <= i < |parts| ==> '.' !in parts[i]
    ensures Split(Join(parts)) == parts
  {
    if |parts| == 1 {
      SplitDotFree(parts[0], [""]);
      assert parts[0] + "" == parts[0];
    } else {
      SplitJoin(parts[1..]);
      var t := "." + Join(parts[1..]);
      assert t[1..] == Join(parts[1..]);
      assert Split(t) == [""] + parts[1..];
      SplitDotFree(parts[0], [""] + parts[1..]);
      assert Join(parts) == parts[0] + t;
      assert parts[0] + "" == parts[0];
    }
  }

  /** A dot-free prefix is glued onto the first piece of what follows it. */
  lemma {:induction false} SplitDotFree(w: string, rest: seq<string>)
    requires '.' !in w
    ensures forall t :: Split(t) == rest && |rest| >= 1 ==> Split(w + t) == [w + rest[0]] + rest[1..]
  {
    if w != [] {
      SplitDotFree(w[1..], rest);
      forall t | Split(t) == rest && |rest| >= 1
        ensures Split(w + t) == [w + rest[0]] + rest[1..]
      {
        assert (w + t)[1..] == w[1..] + t;
        assert [w[0]] + (w[1..] + rest[0]) == w + rest[0];
      }
    } else {
      forall t | Split(t) == rest && |rest| >= 1
        ensures Split(w + t) == [w + rest[0]] + rest[1..]
      {
        assert w + t == t;
        assert w + rest[0] == rest[0];
        assert [rest[0]] + rest[1..] == rest;
      }
    }
  }

  /** The code points of a string. */
  function CodePoints(s: string): (cps: seq<int>)
    ensures |cps| == |s|
    ensures forall i :: 0 <= i < |s| ==> cps[i] == s[i] as int
  {
    seq(|s|, i requires 0 <= i < |s| => s[i] as int)
  }

  /**
   * The text the loop of `encode_name` builds before the terminator, as code
   * points: per part, `chr(len(part))` and then the part. `chr` rejects a length
   * of 0x110000 or more.
   */
  function LabelText(parts: seq<string>): (r: Result<seq<int>>)
    ensures r.Err? <==> exists i :: 0 <= i < |parts| && |parts[i]| >= 0x110000
    ensures r.Err? ==> r.error == ChrOutOfRange
    ensures r.Ok? ==> forall i :: 0 <= i < |r.value| ==> 0 <= r.value[i] < 0x110000
  {
    if parts == [] then Ok([])
    else
      var init := parts[..|parts| - 1];
      var last := parts[|parts| - 1];
      assert forall i :: 0 <= i < |init| ==> init[i] == parts[i];
      var text :- LabelText(init);
      if |last| >= 0x110000 then Err(ChrOutOfRange)
      else Ok(text + [|last|] + CodePoints(last))
  }

  /** Surrogate code points, which `str.encode()` refuses. */
  predicate IsSurrogate(cp: int) { 0xD800 <= cp < 0xE000 }

  /** UTF-8 encoding of one code point. */
  function Utf8Char(cp: int): (r: Result<seq<Byte>>)
    requires 0 <= cp < 0x110000
    ensures r.Err? <==> IsSurrogate(cp)
    ensures r.Ok? ==> 1 <= |r.value| <= 4 && (|r.value| == 1 <==> cp < 0x80)
    ensures r.Ok? && cp < 0x80 ==> r.value == [cp]
  {
    if cp < 0x80 then Ok([cp])
    else if cp < 0x800 then Ok([0xC0 + cp / 64, 0x80 + cp % 64])
    else if IsSurrogate(cp) then Err(SurrogateLength)
    else if cp < 0x10000 then Ok([0xE0 + cp / 4096, 0x80 + cp / 64 % 64, 0x80 + cp % 64])
    else Ok([0xF0 + cp / 262144, 0x80 + cp / 4096 % 64, 0x80 + cp / 64 % 64, 0x80 + cp % 64])
  }

  /** `str.encode()`: UTF-8, failing on the first surrogate. */
  function Utf8Encode(text: seq<int>): (r: Result<seq<Byte>>)
    requires forall i :: 0 <= i < |text| ==> 0 <= text[i] < 0x110000
    ensures r.Err? <==> HasSurrogate(text)
    ensures r.Err? ==> r.error == SurrogateLength
  {
    if text == [] then Ok([])
    else
      var head :- Utf8Char(text[0]);
      var tail :- Utf8Encode(text[1..]);
      Ok(head + tail)
  }

  /**
   * What `encode_name(domain)` returns, or the error it raises. It succeeds
   * exactly when every part's length is a code point that `chr` accepts and
   * UTF-8 can encode: below 0x110000 and not a surrogate. A part that is too
   * long fails in `chr` whatever comes before it; otherwise only the final
   * `encode` can fail.
   */
  function EncodedName(domain: string): (r: Result<seq<Byte>>)
    ensures r.Ok? <==>
      forall i :: 0 <= i < |Split(domain)| ==>
        |Split(domain)[i]| < 0x110000 && !IsSurrogate(|Split(domain)[i]|)
    ensures (exists i :: 0 <= i < |Split(domain)| && |Split(domain)[i]| >= 0x110000) ==> r == Err(ChrOutOfRange)
    ensures r.Err? && (forall i :: 0 <= i < |Split(domain)| ==> |Split(domain)[i]| < 0x110000) ==>
      r.error == SurrogateLength
  {
    var text := LabelText(Split(domain));
    if text.Err? then
      LengthTooLarge(domain);
      Err(text.error)
    else
      LabelsEncode(Split(domain));
      Utf8Encode(text.value + [0])
  }

  /** A part too long for `chr` rules out success. */
  lemma LengthTooLarge(domain: string)
    requires exists i :: 0 <= i < |Split(domain)| && |Split(domain)[i]| >= 0x110000
    ensures !forall i :: 0 <= i < |Split(domain)| ==>
      |Split(domain)[i]| < 0x110000 && !IsSurrogate(|Split(domain)[i]|)
  {
    var i :| 0 <= i < |Split(domain)| && |Split(domain)[i]| >= 0x110000;
    assert !(|Split(domain)[i]| < 0x110000);
  }

  /** A part whose length and characters each fit one UTF-8 octet. */
  predicate IsAsciiLabel(part: string)
  {
    |part| < 128 && forall i :: 0 <= i < |part| ==> part[i] as int < 128
  }

  /** The octets of an ASCII string. */
  function AsciiBytes(s: string): (b: seq<Byte>)
    requires forall i :: 0 <= i < |s| ==> s[i] as int < 128
    ensures |b| == |s|
    ensures forall i :: 0 <= i < |s| ==> b[i] == s[i] as int
  {
    seq(|s|, i requires 0 <= i < |s| => s[i] as int)
  }

  /**
   * The label sequence of RFC 1035 section 3.1 without its terminator: for each
   * part in order, its length octet followed by its octets.
   */
  function LabelSequence(parts: seq<string>): (r: seq<Byte>)
    requires forall i :: 0 <= i < |parts| ==> IsAsciiLabel(parts[i])
    ensures forall i :: 0 <= i < |r| ==> r[i] < 0x80
  {
    if parts == [] then []
    else
      assert IsAsciiLabel(parts[0]);
      var length: Byte := |parts[0]|;
      [length] + AsciiBytes(parts[0]) + LabelSequence(parts[1..])
  }

  /** Appending a part appends its length octet and its octets. */
  lemma {:induction false} LabelSequenceAppend(parts: seq<string>, part: string)
    requires forall i :: 0 <= i < |parts| ==> IsAsciiLabel(parts[i])
    requires IsAsciiLabel(part)
    ensures LabelSequence(parts + [part]) == LabelSequence(parts) + [|part|] + AsciiBytes(part)
  {
    if parts != [] {
      assert (parts + [part])[1..] == parts[1..] + [part];
      LabelSequenceAppend(parts[1..], part);
    }
  }

  /** For ASCII parts the text built by the loop is, code point for octet, the label sequence. */
  lemma {:induction false} LabelTextAscii(parts: seq<string>)
    requires forall i :: 0 <= i < |parts| ==> IsAsciiLabel(parts[i])
    ensures LabelText(parts).Ok? && LabelText(parts).value == LabelSequence(parts)
  {
    if parts != [] {
      var init, last := parts[..|parts| - 1], parts[|parts| - 1];
      LabelTextAscii(init);
      LabelSequenceAppend(init, last);
      assert init + [last] == parts;
    }
  }

  /** UTF-8 leaves ASCII text unchanged. */
  lemma {:induction false} Utf8Ascii(text: seq<int>)
    requires forall i :: 0 <= i < |text| ==> 0 <= text[i] < 0x80
    ensures Utf8Encode(text).Ok? && Utf8Encode(text).value == text
  {
    if text != [] {
      Utf8Ascii(text[1..]);
    }
  }

  /** UTF-8 encoding distributes over concatenation. */
  lemma {:induction false} Utf8Append(a: seq<int>, b: seq<int>)
    requires forall i :: 0 <= i < |a| ==> 0 <= a[i] < 0x110000
    requires forall i :: 0 <= i < |b| ==> 0 <= b[i] < 0x110000
    ensures Utf8Encode(a + b).Ok? <==> Utf8Encode(a).Ok? && Utf8Encode(b).Ok?
    ensures Utf8Encode(a + b).Ok? ==> Utf8Encode(a + b).value == Utf8Encode(a).value + Utf8Encode(b).value
  {
    if a != [] {
      assert (a + b)[1..] == a[1..] + b;
      Utf8Append(a[1..], b);
    } else {
      assert a + b == b;
    }
  }

  /**
   * `"google.com"` encodes to `\x06google\x03com\x00`, the example in the
   * docstring of `encode_name`.
   */
  lemma GoogleExample(domain: string)
    requires domain == "google.com"
    ensures EncodedName(domain) == Ok([6, 103, 111, 111, 103, 108, 101, 3, 99, 111, 109, 0])
  {
    var parts := ["google", "com"];
    GoogleParts(domain);
    var labels := GoogleLabels(parts);
    EncodedNameAscii(domain);
    assert labels + [0] == [6, 103, 111, 111, 103, 108, 101, 3, 99, 111, 109, 0];
  }

  lemma GoogleParts(domain: string)
    requires domain == "google.com"
    ensures Split(domain) == ["google", "com"]
  {
    var parts := ["google", "com"];
    assert Join(parts) == "google.com";
    SplitJoin(parts);
  }

  lemma GoogleLabels(parts: seq<string>) returns (labels: seq<Byte>)
    requires parts == ["google", "com"]
    ensures LabelSequence(parts) == labels == [6, 103, 111, 111, 103, 108, 101, 3, 99, 111, 109]
  {
    assert AsciiBytes(parts[1]) == [99, 111, 109];
    assert AsciiBytes(parts[0]) == [103, 111, 111, 103, 108, 101];
    assert LabelSequence(parts[1..]) == [3] + [99, 111, 109] + [];
    labels := LabelSequence(parts);
  }

  /** The empty domain is one empty part: a zero length octet, then the terminator. */
  lemma EmptyDomain()
    ensures EncodedName("") == Ok([0, 0])
  {
    var parts := [""];
    assert Split("") == parts;
    assert AsciiBytes("") == [];
    assert LabelSequence(parts) == [0] + [] + LabelSequence([]);
    EncodedNameAscii("");
    assert EncodedName("") == Ok(LabelSequence(parts) + [0]);
    assert LabelSequence(parts) + [0] == [0, 0];
  }

  /** A trailing dot adds an empty part, so one more zero octet before the terminator. */
  lemma TrailingDot()
    ensures EncodedName("a.") == Ok([1, 97, 0, 0])
  {
    var parts := ["a", ""];
    assert Join(parts) == "a.";
    SplitJoin(parts);
    assert AsciiBytes("") == [];
    assert AsciiBytes("a") == [97];
    assert LabelSequence(parts[1..]) == [0];
    assert LabelSequence(parts) == [1] + [97] + [0];
    EncodedNameAscii("a.");
    assert EncodedName("a.") == Ok(LabelSequence(parts) + [0]);
    assert LabelSequence(parts) + [0] == [1, 97, 0, 0];
  }

  /**
   * When every part is an ASCII label (fewer than 128 characters) the output is
   * the label sequence of the parts followed by one zero octet, and it is two
   * octets longer than the domain. Parts of 64 to 127 characters are written as
   * they are: no length check.
   */
  lemma EncodedNameAscii(domain: string)
    requires forall i :: 0 <= i < |Split(domain)| ==> IsAsciiLabel(Split(domain)[i])
    ensures EncodedName(domain) == Ok(LabelSequence(Split(domain)) + [0])
    ensures |LabelSequence(Split(domain)) + [0]| == |domain| + 2
  {
    var parts := Split(domain);
    LabelTextAscii(parts);
    var text := LabelText(parts).value + [0];
    Utf8Ascii(text);
    LabelSequenceLength(parts);
    JoinSplit(domain);
  }

  /** Each part costs its length plus one octet; the dots between parts cost one each. */
  lemma {:induction false} LabelSequenceLength(parts: seq<string>)
    requires |parts| >= 1
    requires forall i :: 0 <= i < |parts| ==> IsAsciiLabel(parts[i])
    ensures |LabelSequence(parts)| == |Join(parts)| + 1
  {
    if |parts| > 1 {
      LabelSequenceLength(parts[1..]);
    }
  }

  /** Whatever the domain, a successful encoding ends with the zero octet appended after the last part. */
  lemma EncodedNameEndsWithZero(domain: string)
    requires EncodedName(domain).Ok?
    ensures |EncodedName(domain).value| >= 1
    ensures EncodedName(domain).value[|EncodedName(domain).value| - 1] == 0
  {
    var text := LabelText(Split(domain)).value;
    Utf8Append(text, [0]);
  }

  /** Some code point of `text` is a surrogate. */
  predicate HasSurrogate(text: seq<int>)
  {
    exists k :: 0 <= k < |text| && IsSurrogate(text[k])
  }

  /** The only surrogates in the loop's text are part lengths: characters never are. */
  lemma {:induction false} LabelTextSurrogates(parts: seq<string>)
    requires LabelText(parts).Ok?
    ensures HasSurrogate(LabelText(parts).value) <==> exists i :: 0 <= i < |parts| && IsSurrogate(|parts[i]|)
  {
    if parts != [] {
      var init, last := parts[..|parts| - 1], parts[|parts| - 1];
      LabelTextSurrogates(init);
      var text := LabelText(init).value;
      var full := LabelText(parts).value;
      assert full == text + [|last|] + CodePoints(last);
      if HasSurrogate(full) {
        var k :| 0 <= k < |full| && IsSurrogate(full[k]);
        if k < |text| {
          assert HasSurrogate(text);
          var i :| 0 <= i < |init| && IsSurrogate(|init[i]|);
          assert parts[i] == init[i];
        } else if k == |text| {
          assert IsSurrogate(|parts[|parts| - 1]|);
        }
      }
      if exists i :: 0 <= i < |parts| && IsSurrogate(|parts[i]|) {
        var i :| 0 <= i < |parts| && IsSurrogate(|parts[i]|);
        if i < |init| {
          assert init[i] == parts[i];
          assert HasSurrogate(text);
          var k :| 0 <= k < |text| && IsSurrogate(text[k]);
          assert full[k] == text[k];
        } else {
          assert full[|text|] == |last|;
        }
      }
    }
  }

  /** Once every length passes `chr`, the text encodes exactly when no length is a surrogate. */
  lemma LabelsEncode(parts: seq<string>)
    requires LabelText(parts).Ok?
    ensures forall i :: 0 <= i < |LabelText(parts).value + [0]| ==> 0 <= (LabelText(parts).value + [0])[i] < 0x110000
    ensures Utf8Encode(LabelText(parts).value + [0]).Ok?
      <==> forall i :: 0 <= i < |parts| ==> |parts[i]| < 0x110000 && !IsSurrogate(|parts[i]|)
  {
    LabelTextSurrogates(parts);
    TerminatedTextEncodes(LabelText(parts).value);
    assert forall i :: 0 <= i < |parts| ==> |parts[i]| < 0x110000;
  }

  /** The text with its terminator encodes exactly when the text holds no surrogate. */
  lemma TerminatedTextEncodes(text: seq<int>)
    requires forall i :: 0 <= i < |text| ==> 0 <= text[i] < 0x110000
    ensures forall i :: 0 <= i < |text + [0]| ==> 0 <= (text + [0])[i] < 0x110000
    ensures Utf8Encode(text + [0]).Ok? <==> !HasSurrogate(text)
  {
    TerminatorNotSurrogate(text);
  }

  /** The terminator appended to the text is never a surrogate. */
  lemma TerminatorNotSurrogate(text: seq<int>)
    ensures HasSurrogate(text + [0]) <==> HasSurrogate(text)
  {
    if HasSurrogate(text + [0]) {
      var k :| 0 <= k < |text| + 1 && IsSurrogate((text + [0])[k]);
      assert k < |text| && IsSurrogate(text[k]);
    }
    if HasSurrogate(text) {
      var k :| 0 <= k < |text| && IsSurrogate(text[k]);
      assert (text + [0])[k] == text[k];
    }
  }

  /** The loop of `encode_name`: append `chr(len(part)) + part` per part, then "\x00", then encode. */
  method EncodeName(domain: string) returns (r: Result<seq<Byte>>)
    ensures r == EncodedName(domain)
  {
    var parts := Split(domain);
    var name: seq<int> := [];
    var i := 0;
    while i < |parts|
      invariant i <= |parts|
      invariant LabelText(parts[..i]) == Ok(name)
    {
      var part := parts[i];
      if |part| >= 0x110000 {
        return Err(ChrOutOfRange);
      }
      assert parts[..i + 1][..i] == parts[..i];
      name := name + [|part|] + CodePoints(part);
      i := i + 1;
    }
    assert parts[..i] == parts;
    name := name + [0];
    r := Utf8Encode(name);
  }
}
