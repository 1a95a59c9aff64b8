/**
 * Name extraction (section 4.1.4 of RFC 1035, message compression) as the
 * codec does it: a byte-by-byte scan from an offset that stops at the first
 * zero octet or at the first octet whose top two bits are 11, which starts a
 * compression pointer that is followed recursively.
 *
 * Python bounds the recursion only by its interpreter stack; here `fuel` is the
 * number of pointers that may still be followed, and running out of it is the
 * failure `CompressionLoop` (Python's RecursionError).
 */
module CommonModule {
  import opened Wire

  /** The first octet of a compression pointer: its top two bits are 11 (`b >> 6 == 0b11`, that is `b >= 0xC0`). */
  predicate IsPointer(b: Byte) { b >= 0xC0 }

  /** An octet at which the scan ends the name: the terminator or a pointer. */
  predicate IsStop(b: Byte) { b == 0 || IsPointer(b) }

  /** The 14-bit target of the pointer whose first octet is `buf[q]`: the low six bits of it, then the next octet. */
  function PointerOffset(buf: seq<Byte>, q: nat): nat
    requires q + 1 < |buf|
  {
    (buf[q] % 64) as int * 256 + buf[q + 1] as int
  }

  /** The target is `int.from_bytes(buf[q:q+2], "big") & 0x3FFF`, a 14-bit offset. */
  lemma PointerOffsetBytes(buf: seq<Byte>, q: nat)
    requires q + 1 < |buf|
    ensures PointerOffset(buf, q) < 0x4000
    ensures PointerOffset(buf, q) == UnpackUInt(buf[q..q + 2]) % 0x4000
  {
    UnpackTwo(buf[q..q + 2]);
  }

  /**
   * Where a scan from `p` stops: the first stop octet at or after `p`, unless
   * the 4-byte tail margin `|buf| - 4` comes first, in which case the margin
   * position (or `p` itself, when `p` is already inside the margin).
   */
  function NameEnd(buf: seq<Byte>, p: nat): (q: nat)
    ensures p <= q
    ensures p < q ==> q <= |buf| - 4
    ensures q < |buf| - 4 ==> IsStop(buf[q])
    ensures forall j :: p <= j < q ==> !IsStop(buf[j])
    decreases |buf| - p
  {
    if p >= |buf| - 4 || IsStop(buf[p]) then p else NameEnd(buf, p + 1)
  }

  /**
   * What `extract_name(buf, start)` returns: the name in wire form with every
   * pointer replaced by the name it points to, and the position count (the index
   * of the terminator relative to `start`, or one past the pointer's first octet).
   */
  function Extract(buf: seq<Byte>, start: nat, fuel: nat): (r: Result<(seq<Byte>, nat)>)
    ensures r.Err? ==> r.error == TruncatedName || r.error == CompressionLoop
    ensures r.Ok? && start < |buf| ==> start + r.value.1 + 1 <= |buf| - 3
    ensures start >= |buf| ==> r == Ok(([], 0))
    decreases fuel
  {
    if start >= |buf| then Ok(([], 0))
    else
      var q := NameEnd(buf, start);
      if q >= |buf| - 4 then Err(TruncatedName)
      else if buf[q] == 0 then Ok((buf[start..q + 1], q - start))
      else if fuel == 0 then Err(CompressionLoop)
      else
        var pointed :- Extract(buf, PointerOffset(buf, q), fuel - 1);
        Ok((buf[start..q] + pointed.0, q - start + 1))
  }

  /** A name that reaches a terminator before any pointer is that stretch of `buf`, whatever the fuel. */
  lemma ExtractTerminator(buf: seq<Byte>, start: nat, k: nat, fuel: nat)
    requires start + k < |buf| - 4 && buf[start + k] == 0
    requires forall j :: start <= j < start + k ==> !IsStop(buf[j])
    ensures Extract(buf, start, fuel) == Ok((buf[start..start + k + 1], k))
  {
    assert NameEnd(buf, start) == start + k;
  }

  /** A name that reaches a pointer first is the stretch before it followed by the name the pointer leads to. */
  lemma ExtractPointer(buf: seq<Byte>, start: nat, k: nat, fuel: nat)
    requires start + k < |buf| - 4 && IsPointer(buf[start + k])
    requires forall j :: start <= j < start + k ==> !IsStop(buf[j])
    ensures fuel == 0 ==> Extract(buf, start, fuel) == Err(CompressionLoop)
    ensures fuel > 0 ==>
      var pointed := Extract(buf, PointerOffset(buf, start + k), fuel - 1);
      var r := Extract(buf, start, fuel);
      && r.Ok? == pointed.Ok?
      && (pointed.Err? ==> r.error == pointed.error)
      && (pointed.Ok? ==> r.value == (buf[start..start + k] + pointed.value.0, k + 1))
  {
    assert NameEnd(buf, start) == start + k;
  }

  /** With no stop octet before the margin, extraction fails, whatever the fuel. */
  lemma ExtractTruncated(buf: seq<Byte>, start: nat, fuel: nat)
    requires start < |buf|
    requires forall j :: start <= j < |buf| - 4 ==> !IsStop(buf[j])
    ensures Extract(buf, start, fuel) == Err(TruncatedName)
  {
    assert NameEnd(buf, start) >= |buf| - 4;
  }

  /**
   * An uncompressed name (non-stop octets, then a zero) followed by at least four
   * octets extracts to itself, with its terminator's index as the count.
   */
  lemma ExtractPlainName(prefix: seq<Byte>, name: seq<Byte>, suffix: seq<Byte>, fuel: nat)
    requires |name| >= 1 && name[|name| - 1] == 0
    requires forall j :: 0 <= j < |name| - 1 ==> !IsStop(name[j])
    requires |suffix| >= 4
    ensures Extract(prefix + name + suffix, |prefix|, fuel) == Ok((name, |name| - 1))
  {
    var buf := prefix + name + suffix;
    forall j | |prefix| <= j < |prefix| + |name| - 1
      ensures !IsStop(buf[j])
    {
      assert buf[j] == name[j - |prefix|];
    }
    ExtractTerminator(buf, |prefix|, |name| - 1, fuel);
    assert buf[|prefix|..|prefix| + |name|] == name;
  }

  /**
   * `start + count + 1` is the position just past the name as written at `start`:
   * past its terminator, or past both octets of the pointer that ends it.
   */
  lemma ExtractWireEnd(buf: seq<Byte>, start: nat, fuel: nat)
    requires start < |buf| && Extract(buf, start, fuel).Ok?
    ensures
      var (name, count) := Extract(buf, start, fuel).value;
      var past := start + count + 1;
      && past <= |buf| - 3
      && (|| (&& buf[past - 1] == 0 && name == buf[start..past]
              && forall j :: start <= j < past - 1 ==> !IsStop(buf[j]))
          || (&& start + 2 <= past && IsPointer(buf[past - 2]) && buf[start..past - 2] <= name
              && forall j :: start <= j < past - 2 ==> !IsStop(buf[j])))
  {
    var q := NameEnd(buf, start);
    assert q < |buf| - 4;
  }

  /** Two buffers of one length whose octets before `|buf| - 3` agree. */
  ghost predicate SameBeforeMargin(buf: seq<Byte>, other: seq<Byte>)
  {
    |buf| == |other| && forall i :: 0 <= i < |buf| - 3 ==> buf[i] == other[i]
  }

  /** Only the octets before `|buf| - 3` matter: no stop octet is read inside the margin, a pointer's second octet may be. */
  lemma {:induction false} NameEndBeforeMargin(buf: seq<Byte>, other: seq<Byte>, p: nat)
    requires SameBeforeMargin(buf, other)
    ensures NameEnd(buf, p) == NameEnd(other, p)
    decreases |buf| - p
  {
    if p < |buf| - 4 && !IsStop(buf[p]) {
      NameEndBeforeMargin(buf, other, p + 1);
    }
  }

  /** Two buffers of one length that agree before `|buf| - 3` extract the same name from every offset. */
  lemma {:induction false} ExtractIgnoresMargin(buf: seq<Byte>, other: seq<Byte>, start: nat, fuel: nat)
    requires SameBeforeMargin(buf, other)
    ensures Extract(buf, start, fuel) == Extract(other, start, fuel)
    decreases fuel
  {
    if start < |buf| {
      NameEndBeforeMargin(buf, other, start);
      var q := NameEnd(buf, start);
      if q < |buf| - 4 && buf[q] != 0 && fuel > 0 {
        var target := PointerOffset(buf, q);
        ExtractIgnoresMargin(buf, other, target, fuel - 1);
        assert Extract(buf, start, fuel) == Extract(other, start, fuel) by {
          assert target == PointerOffset(other, q);
          assert Extract(buf, target, fuel - 1) == Extract(other, target, fuel - 1);
          SamePointerSameName(buf, other, start, q, fuel);
        }
      } else {
        assert Extract(buf, start, fuel) == Extract(other, start, fuel) by {
          SameStopSameName(buf, other, start, fuel);
        }
      }
    }
  }

  /** The cases of ExtractIgnoresMargin that follow no pointer. */
  lemma SameStopSameName(buf: seq<Byte>, other: seq<Byte>, start: nat, fuel: nat)
    requires SameBeforeMargin(buf, other)
    requires start < |buf| && NameEnd(buf, start) == NameEnd(other, start)
    requires NameEnd(buf, start) < |buf| - 4 && buf[NameEnd(buf, start)] != 0 ==> fuel == 0
    ensures Extract(buf, start, fuel) == Extract(other, start, fuel)
  {
    var q := NameEnd(buf, start);
    if q >= |buf| - 4 {
      ExtractTruncated(buf, start, fuel);
      ExtractTruncated(other, start, fuel);
    } else if buf[q] == 0 {
      ExtractTerminator(buf, start, q - start, fuel);
      ExtractTerminator(other, start, q - start, fuel);
      assert buf[start..q + 1] == other[start..q + 1];
    } else {
      ExtractPointer(buf, start, q - start, fuel);
      ExtractPointer(other, start, q - start, fuel);
    }
  }

  /** One step of ExtractIgnoresMargin: the same pointer, leading to the same name, gives the same result. */
  lemma SamePointerSameName(buf: seq<Byte>, other: seq<Byte>, start: nat, q: nat, fuel: nat)
    requires SameBeforeMargin(buf, other)
    requires start <= q < |buf| - 4 && IsPointer(buf[q]) && fuel > 0
    requires forall j :: start <= j < q ==> !IsStop(buf[j])
    requires Extract(buf, PointerOffset(buf, q), fuel - 1) == Extract(other, PointerOffset(other, q), fuel - 1)
    ensures Extract(buf, start, fuel) == Extract(other, start, fuel)
  {
    assert forall j :: start <= j <= q ==> other[j] == buf[j];
    assert buf[start..q] == other[start..q];
    var pointed := Extract(buf, PointerOffset(buf, q), fuel - 1);
    ExtractPointer(buf, start, q - start, fuel);
    ExtractPointer(other, start, q - start, fuel);
    if pointed.Ok? {
      assert Extract(buf, start, fuel) == Ok((buf[start..q] + pointed.value.0, q - start + 1));
      assert Extract(other, start, fuel) == Ok((other[start..q] + pointed.value.0, q - start + 1));
    } else {
      assert Extract(buf, start, fuel) == Err(pointed.error);
      assert Extract(other, start, fuel) == Err(pointed.error);
    }
  }

  /** Fuel only matters by running out: any result other than CompressionLoop stays the same with more fuel. */
  lemma {:induction false} ExtractMoreFuel(buf: seq<Byte>, start: nat, fuel: nat, more: nat)
    requires fuel <= more
    requires Extract(buf, start, fuel) != Err(CompressionLoop)
    ensures Extract(buf, start, more) == Extract(buf, start, fuel)
    decreases fuel
  {
    if start < |buf| {
      var q := NameEnd(buf, start);
      if q < |buf| - 4 && buf[q] != 0 {
        ExtractMoreFuel(buf, PointerOffset(buf, q), fuel - 1, more - 1);
      }
    }
  }

  /**
   * A set of pointer positions that the recursion cannot leave: every pointer in
   * it leads to a scan that stops at a pointer in it again.
   */
  ghost predicate PointerCycle(buf: seq<Byte>, cycle: set<nat>)
  {
    forall q {:trigger StaysInCycle(buf, cycle, q)} :: q in cycle ==> StaysInCycle(buf, cycle, q)
  }

  /** `q` is a pointer whose target's scan stops at a member of `cycle`. */
  ghost predicate StaysInCycle(buf: seq<Byte>, cycle: set<nat>, q: nat)
  {
    && q < |buf| - 4 && IsPointer(buf[q])
    && PointerOffset(buf, q) < |buf|
    && NameEnd(buf, PointerOffset(buf, q)) in cycle
  }

  /**
   * A scan that stops at a pointer of a cycle never produces a name: Python
   * recurses until RecursionError, the model fails for every fuel. A pointer to
   * itself is the cycle `{q}`; two pointers to each other are `{a, b}`.
   */
  lemma {:induction false} CycleNeverResolves(buf: seq<Byte>, cycle: set<nat>, start: nat, fuel: nat)
    requires PointerCycle(buf, cycle)
    requires start < |buf| && NameEnd(buf, start) in cycle
    ensures Extract(buf, start, fuel) == Err(CompressionLoop)
    decreases fuel
  {
    var q := NameEnd(buf, start);
    assert StaysInCycle(buf, cycle, q);
    ExtractPointer(buf, start, q - start, fuel);
    if fuel > 0 {
      CycleNeverResolves(buf, cycle, PointerOffset(buf, q), fuel - 1);
    }
  }

  /** A pointer to its own position: Python recurses without end, the model fails for every fuel. */
  lemma SelfPointerLoops(buf: seq<Byte>, q: nat, fuel: nat)
    requires q < |buf| - 4 && IsPointer(buf[q]) && PointerOffset(buf, q) == q
    ensures Extract(buf, q, fuel) == Err(CompressionLoop)
  {
    assert NameEnd(buf, q) == q;
    assert StaysInCycle(buf, {q}, q);
    CycleNeverResolves(buf, {q}, q, fuel);
  }

  /**
   * A name that is a lone pointer comes back as the name it points to, expanded,
   * with count 1: the pointer's own two octets on the wire, not the length of the
   * expansion.
   */
  lemma PointerCopiesName(buf: seq<Byte>, q: nat, fuel: nat)
    requires q < |buf| - 4 && IsPointer(buf[q])
    requires Extract(buf, PointerOffset(buf, q), fuel).Ok?
    ensures Extract(buf, q, fuel + 1) == Ok((Extract(buf, PointerOffset(buf, q), fuel).value.0, 1))
  {
    var pointed := Extract(buf, PointerOffset(buf, q), fuel).value.0;
    ExtractPointer(buf, q, 0, fuel + 1);
    assert buf[q..q] + pointed == pointed;
  }

  /** The pointer at `q` sends the scan to a pointer strictly before `q`, or to no pointer at all. */
  ghost predicate LeadsBackward(buf: seq<Byte>, q: nat)
    requires q + 1 < |buf|
  {
    var target := PointerOffset(buf, q);
    (target < |buf| && NameEnd(buf, target) < |buf| - 4 && IsPointer(buf[NameEnd(buf, target)]))
      ==> NameEnd(buf, target) < q
  }

  /** Every pointer of the buffer leads backward. */
  ghost predicate PointersLeadBackward(buf: seq<Byte>)
  {
    forall q :: 0 <= q < |buf| - 4 && IsPointer(buf[q]) ==> LeadsBackward(buf, q)
  }

  /** When pointers lead backward, fuel above the position of the first pointer met is enough. */
  lemma {:induction false} BackwardChainsEnd(buf: seq<Byte>, start: nat, fuel: nat)
    requires PointersLeadBackward(buf)
    requires start < |buf| && NameEnd(buf, start) < |buf| - 4 && IsPointer(buf[NameEnd(buf, start)])
      ==> NameEnd(buf, start) < fuel
    ensures Extract(buf, start, fuel) != Err(CompressionLoop)
    decreases fuel
  {
    if start < |buf| {
      var q := NameEnd(buf, start);
      if q < |buf| - 4 && buf[q] != 0 {
        assert LeadsBackward(buf, q);
        BackwardChainsEnd(buf, PointerOffset(buf, q), fuel - 1);
      }
    }
  }

  /**
   * With backward pointers, fuel `|buf|` never runs out, and any larger fuel
   * gives the same answer: the recursion terminates.
   */
  lemma BackwardPointersTerminate(buf: seq<Byte>, start: nat, fuel: nat)
    requires PointersLeadBackward(buf) && |buf| <= fuel
    ensures Extract(buf, start, fuel) != Err(CompressionLoop)
    ensures Extract(buf, start, fuel) == Extract(buf, start, |buf|)
  {
    BackwardChainsEnd(buf, start, |buf|);
    ExtractMoreFuel(buf, start, |buf|, fuel);
  }

  /**
   * The scan of `extract_name`: one octet at a time over `buf[start:]`, failing
   * once the position reaches the margin, ending at a terminator or following a
   * pointer with one unit less of fuel.
   */
  method ExtractName(buf: seq<Byte>, start: nat, fuel: nat) returns (r: Result<(seq<Byte>, nat)>)
    ensures r == Extract(buf, start, fuel)
    decreases fuel, 1
  {
    var remainder := if start < |buf| then buf[start..] else [];
    var nameEnd := 0;
    while nameEnd < |remainder|
      invariant start < |buf| ==> |remainder| == |buf| - start
      invariant 0 < nameEnd ==> start + nameEnd <= |buf| - 4
      invariant forall j :: start <= j < start + nameEnd ==> !IsStop(buf[j])
    {
      if start + nameEnd >= |buf| - 4 {
        r := Err(TruncatedName);
        assert r == Extract(buf, start, fuel) by {
          ExtractTruncated(buf, start, fuel);
        }
        return;
      }
      assert remainder[nameEnd] == buf[start + nameEnd];
      if remainder[nameEnd] == 0 {
        r := Ok((remainder[..nameEnd + 1], nameEnd));
        assert r == Extract(buf, start, fuel) by {
          ExtractTerminator(buf, start, nameEnd, fuel);
          assert remainder[..nameEnd + 1] == buf[start..start + nameEnd + 1];
        }
        return;
      }
      if remainder[nameEnd] / 64 == 3 {
        assert IsPointer(buf[start + nameEnd]);
        r := FollowPointer(buf, start, nameEnd, fuel);
        return;
      }
      nameEnd := nameEnd + 1;
    }
    return Ok(([], 0));
  }

  /**
   * The pointer branch of the scan: the two octets at `start + k` give the
   * offset, the name there is extracted recursively and appended to the
   * octets before the pointer, and the count is `k + 1`.
   */
  method FollowPointer(buf: seq<Byte>, start: nat, k: nat, fuel: nat) returns (r: Result<(seq<Byte>, nat)>)
    requires start + k < |buf| - 4 && IsPointer(buf[start + k])
    requires forall j :: start <= j < start + k ==> !IsStop(buf[j])
    ensures r == Extract(buf, start, fuel)
    decreases fuel, 0
  {
    var remainder := buf[start..];
    var offset := UnpackUInt(remainder[k..k + 2]) % 0x4000;
    assert offset == PointerOffset(buf, start + k) by {
      assert remainder[k..k + 2] == buf[start + k..start + k + 2];
      PointerOffsetBytes(buf, start + k);
    }
    ExtractPointer(buf, start, k, fuel);
    if fuel == 0 {
      return Err(CompressionLoop);
    }
    var pointed := ExtractName(buf, offset, fuel - 1);
    if pointed.Err? {
      return Err(pointed.error);
    }
    assert remainder[..k] == buf[start..start + k];
    return Ok((remainder[..k] + pointed.value.0, k + 1));
  }
}
