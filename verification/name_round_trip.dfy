/**
 * How `encode_name` and `extract_name` fit together: the wire form of a host
 * name (non-empty, NUL-free ASCII parts shorter than 128 characters) contains
 * no stop octet before its terminator, so the scan reads it back whole.
 */
module NameRoundTrip {
  import opened Wire
  import opened CommonModule
  import opened UrlSequenceCreator

  /** A part that encodes to plain labels: non-empty, ASCII, no NUL, fewer than 128 characters. */
  predicate IsHostLabel(part: string)
  {
    && 1 <= |part| && IsAsciiLabel(part)
    && forall i :: 0 <= i < |part| ==> part[i] != '\0'
  }

  /** A domain all of whose dot-separated parts are host labels. */
  predicate IsHostName(domain: string)
  {
    forall i :: 0 <= i < |Split(domain)| ==> IsHostLabel(Split(domain)[i])
  }

  /** Every octet of the label sequence of host labels is in 1..127: neither a terminator nor a pointer. */
  lemma {:induction false} HostLabelsHaveNoStop(parts: seq<string>)
    requires forall i :: 0 <= i < |parts| ==> IsHostLabel(parts[i])
    requires forall i :: 0 <= i < |parts| ==> IsAsciiLabel(parts[i])
    ensures forall j :: 0 <= j < |LabelSequence(parts)| ==> 1 <= LabelSequence(parts)[j] < 0x80
  {
    if parts != [] {
      HostLabelsHaveNoStop(parts[1..]);
      var head := parts[0];
      assert IsHostLabel(head);
      var rest := LabelSequence(parts[1..]);
      var bytes := AsciiBytes(head);
      assert LabelSequence(parts) == [|head|] + bytes + rest;
      forall j | 0 <= j < |LabelSequence(parts)|
        ensures 1 <= LabelSequence(parts)[j] < 0x80
      {
        if j == 0 {
        } else if j <= |bytes| {
          assert LabelSequence(parts)[j] == head[j - 1] as int;
        } else {
          assert LabelSequence(parts)[j] == rest[j - 1 - |bytes|];
        }
      }
    }
  }

  /**
   * A host name encodes without error; the encoding is non-stop octets followed
   * by one zero octet.
   */
  lemma HostNameWire(domain: string)
    requires IsHostName(domain)
    ensures EncodedName(domain).Ok?
    ensures var e := EncodedName(domain).value;
      && |e| >= 2 && e[|e| - 1] == 0
      && forall j :: 0 <= j < |e| - 1 ==> !IsStop(e[j])
  {
    var parts := Split(domain);
    EncodedNameAscii(domain);
    HostLabelsHaveNoStop(parts);
    var e := EncodedName(domain).value;
    assert e == LabelSequence(parts) + [0];
    assert IsHostLabel(parts[0]);
    forall j | 0 <= j < |e| - 1
      ensures !IsStop(e[j])
    {
      assert e[j] == LabelSequence(parts)[j];
    }
  }

  /**
   * Round trip: the encoding `e` of a host name, written at any offset with at
   * least four octets after it, extracts to `(e, |e| - 1)` with any fuel.
   */
  lemma NameRoundTrip(domain: string, prefix: seq<Byte>, suffix: seq<Byte>, fuel: nat)
    requires IsHostName(domain) && |suffix| >= 4
    ensures EncodedName(domain).Ok?
    ensures var e := EncodedName(domain).value;
      Extract(prefix + e + suffix, |prefix|, fuel) == Ok((e, |e| - 1))
  {
    HostNameWire(domain);
    ExtractPlainName(prefix, EncodedName(domain).value, suffix, fuel);
  }

  /**
   * A name written as a lone pointer to the encoding of a host name comes back
   * as that encoding, with count 1.
   */
  lemma CompressedName(domain: string, buf: seq<Byte>, offset: nat, q: nat, fuel: nat)
    requires IsHostName(domain)
    requires EncodedName(domain).Ok?
    requires var e := EncodedName(domain).value;
      offset + |e| + 4 <= |buf| && buf[offset..offset + |e|] == e
    requires q < |buf| - 4 && IsPointer(buf[q]) && PointerOffset(buf, q) == offset
    ensures Extract(buf, q, fuel + 1) == Ok((EncodedName(domain).value, 1))
  {
    var e := EncodedName(domain).value;
    NameRoundTrip(domain, buf[..offset], buf[offset + |e|..], fuel);
    assert buf[..offset] + e + buf[offset + |e|..] == buf;
    PointerCopiesName(buf, q, fuel);
  }
}
