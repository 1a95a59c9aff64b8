/**
 * Shared vocabulary of the codec: octets, the failures the Python code raises,
 * Python's clamping slice, and the big-endian integer layout of `struct.pack` /
 * `struct.unpack` with their range and size checks.
 */
module Wire {

  /** One octet of a packet buffer (a Python `bytes` element). */
  type Byte = x: int | 0 <= x < 256

  /**
   * Why an operation fails. Each constructor stands for the exception the Python
   * code raises in that situation.
   */
  datatype Error =
    | TruncatedName      // ValueError in extract_name: no end of name before the 4-byte margin
    | CompressionLoop    // RecursionError: the pointer chain outran the recursion budget
    | ChrOutOfRange      // ValueError from chr(): a label of 0x110000 characters or more
    | SurrogateLength    // UnicodeEncodeError: a label length that is a surrogate code point
    | StructError        // struct.error: value out of range on pack, wrong byte count on unpack
    | ShortHeader        // ValueError in header_parser: fewer than 12 bytes
    | MissingQuestion    // ValueError in question_parser: nothing after the header
    | NoTerminator       // ValueError from bytes.index: no zero byte after the header
    | NameNotText        // TypeError: encode_name called on a bytes name

  /** Success with a value, or the error that Python would raise. */
  datatype Result<T> = Ok(value: T) | Err(error: Error)
  {
    predicate IsFailure() { Err? }

    function PropagateFailure<U>(): Result<U>
      requires Err?
    {
      Err(error)
    }

    function Extract(): T
      requires Ok?
    {
      value
    }
  }

  function Min(a: int, b: int): (m: int) { if a <= b then a else b }

  /** Python's `s[lo:hi]` for non-negative bounds: both ends are clamped to the length. */
  function Slice(s: seq<Byte>, lo: nat, hi: nat): (r: seq<Byte>)
    ensures |r| == if lo < hi && lo < |s| then Min(hi, |s|) - lo else 0
    ensures forall i :: 0 <= i < |r| ==> r[i] == s[lo + i]
  {
    if lo < hi && lo < |s| then s[lo..Min(hi, |s|)] else []
  }

  /** 256 to the power `width`: the number of values `width` octets can hold. */
  function Radix(width: nat): (r: nat)
    ensures r >= 1
  {
    if width == 0 then 1 else 256 * Radix(width - 1)
  }

  /** True when `x` fits an unsigned big-endian field of `width` octets. */
  predicate Fits(x: int, width: nat)
  {
    0 <= x < Radix(width)
  }

  /** The `width` octets of `x`, most significant first (no range check). */
  function BigEndian(x: nat, width: nat): (r: seq<Byte>)
    ensures |r| == width
  {
    if width == 0 then [] else BigEndian(x / 256, width - 1) + [x % 256]
  }

  /** The unsigned integer whose big-endian octets are `b` (`int.from_bytes(b, "big")`). */
  function UnpackUInt(b: seq<Byte>): (x: nat)
    ensures x < Radix(|b|)
  {
    if b == [] then 0 else UnpackUInt(b[..|b| - 1]) * 256 + b[|b| - 1]
  }

  /** `struct.pack` of one unsigned field of `width` octets: out of range is a struct.error. */
  function PackUInt(x: int, width: nat): (r: Result<seq<Byte>>)
    ensures r.Ok? <==> Fits(x, width)
    ensures r.Ok? ==> |r.value| == width
  {
    if Fits(x, width) then Ok(BigEndian(x, width)) else Err(StructError)
  }

  /** An in-range field reads back as the value it was packed from. */
  lemma PackUIntReads(x: int, width: nat)
    requires Fits(x, width)
    ensures UnpackUInt(PackUInt(x, width).value) == x
  {
    UnpackBigEndian(x, width);
  }

  /** Reading back the octets written for an in-range value gives the value. */
  lemma {:induction false} UnpackBigEndian(x: nat, width: nat)
    requires x < Radix(width)
    ensures UnpackUInt(BigEndian(x, width)) == x
  {
    if width > 0 {
      var b := BigEndian(x, width);
      assert b[..|b| - 1] == BigEndian(x / 256, width - 1);
      UnpackBigEndian(x / 256, width - 1);
    }
  }

  /** Writing back the value read from some octets reproduces those octets. */
  lemma {:induction false} BigEndianUnpack(b: seq<Byte>)
    ensures BigEndian(UnpackUInt(b), |b|) == b
  {
    if b != [] {
      var init := b[..|b| - 1];
      BigEndianUnpack(init);
      assert b == init + [b[|b| - 1]];
    }
  }

  /** The two-octet case used by every 16-bit field. */
  lemma UnpackTwo(b: seq<Byte>)
    requires |b| == 2
    ensures UnpackUInt(b) == b[0] as int * 256 + b[1] as int
  {
    assert b[..1][..0] == [];
  }

  /** Octets taken by a struct format whose fields have the given widths (`struct.calcsize`). */
  function Size(widths: seq<nat>): (n: nat)
  {
    if widths == [] then 0 else widths[0] + Size(widths[1..])
  }

  /** Where field `i` of the format starts. */
  function Offset(widths: seq<nat>, i: nat): (o: nat)
    requires i <= |widths|
  {
    Size(widths[..i])
  }

  /** Past the first field, offsets are those of the remaining fields shifted by its width. */
  lemma OffsetShift(widths: seq<nat>, i: nat)
    requires 0 < i <= |widths|
    ensures Offset(widths, i) == widths[0] + Offset(widths[1..], i - 1)
  {
    assert widths[..i][1..] == widths[1..][..i - 1];
  }

  /** Field `i` ends within the format. */
  lemma {:induction false} OffsetBound(widths: seq<nat>, i: nat)
    requires i < |widths|
    ensures Offset(widths, i) + widths[i] <= Size(widths)
  {
    if i > 0 {
      OffsetShift(widths, i);
      OffsetBound(widths[1..], i - 1);
    }
  }

  /** The fields of a format read one after the other, starting at position `pos`. */
  function UnpackAt(b: seq<Byte>, pos: nat, widths: seq<nat>): (values: seq<int>)
    requires pos + Size(widths) <= |b|
    ensures |values| == |widths|
    ensures forall i :: 0 <= i < |widths| ==> Fits(values[i], widths[i])
    decreases widths
  {
    if widths == [] then []
    else [UnpackUInt(b[pos..pos + widths[0]])] + UnpackAt(b, pos + widths[0], widths[1..])
  }

  /**
   * `struct.unpack` of unsigned big-endian fields: the buffer must have exactly
   * the format's size, and the fields are read in order.
   */
  function Unpack(b: seq<Byte>, widths: seq<nat>): (r: Result<seq<int>>)
    ensures r.Ok? <==> |b| == Size(widths)
    ensures r.Err? ==> r.error == StructError
    ensures r.Ok? ==> |r.value| == |widths|
    ensures r.Ok? ==> forall i :: 0 <= i < |widths| ==> Fits(r.value[i], widths[i])
  {
    if |b| == Size(widths) then Ok(UnpackAt(b, 0, widths)) else Err(StructError)
  }

  /** Field `i` read from position `pos` is the big-endian value of its own octets. */
  lemma {:induction false} UnpackAtField(b: seq<Byte>, pos: nat, widths: seq<nat>, i: nat)
    requires pos + Size(widths) <= |b| && i < |widths|
    ensures pos + Offset(widths, i) + widths[i] <= |b|
    ensures UnpackAt(b, pos, widths)[i]
      == UnpackUInt(b[pos + Offset(widths, i)..pos + Offset(widths, i) + widths[i]])
    decreases widths
  {
    OffsetBound(widths, i);
    if i > 0 {
      var rest := widths[1..];
      var next := pos + widths[0];
      UnpackAtField(b, next, rest, i - 1);
      OffsetShift(widths, i);
      assert UnpackAt(b, pos, widths)[i] == UnpackAt(b, next, rest)[i - 1];
      assert widths[i] == rest[i - 1];
    }
  }

  /** Field `i` of an unpacked buffer is the big-endian value of that field's own octets. */
  lemma UnpackField(b: seq<Byte>, widths: seq<nat>, i: nat)
    requires Unpack(b, widths).Ok? && i < |widths|
    ensures Offset(widths, i) + widths[i] <= |b|
    ensures Unpack(b, widths).value[i] == UnpackUInt(b[Offset(widths, i)..Offset(widths, i) + widths[i]])
  {
    UnpackAtField(b, 0, widths, i);
  }

  /**
   * `struct.pack` of unsigned big-endian fields: every value must fit its
   * field, and the fields are written in order.
   */
  function Pack(values: seq<int>, widths: seq<nat>): (r: Result<seq<Byte>>)
    requires |values| == |widths|
    ensures r.Ok? <==> forall i :: 0 <= i < |values| ==> Fits(values[i], widths[i])
    ensures r.Err? ==> r.error == StructError
    ensures r.Ok? ==> |r.value| == Size(widths)
  {
    if values == [] then Ok([])
    else
      var head :- PackUInt(values[0], widths[0]);
      var tail :- Pack(values[1..], widths[1..]);
      Ok(head + tail)
  }

  /** Reading the fields back from wherever the packed octets sit gives the values. */
  lemma {:induction false} UnpackAtPack(prefix: seq<Byte>, values: seq<int>, widths: seq<nat>, suffix: seq<Byte>)
    requires |values| == |widths| && Pack(values, widths).Ok?
    ensures |prefix| + Size(widths) <= |prefix + Pack(values, widths).value + suffix|
    ensures UnpackAt(prefix + Pack(values, widths).value + suffix, |prefix|, widths) == values
    decreases widths
  {
    if values != [] {
      var head := PackUInt(values[0], widths[0]).value;
      var tail := Pack(values[1..], widths[1..]).value;
      var buf := prefix + (head + tail) + suffix;
      assert buf == (prefix + head) + tail + suffix;
      UnpackAtPack(prefix + head, values[1..], widths[1..], suffix);
      assert buf[|prefix|..|prefix| + widths[0]] == head;
      PackUIntReads(values[0], widths[0]);
      assert [values[0]] + values[1..] == values;
    }
  }

  /** Unpacking what was packed gives back the values. */
  lemma UnpackPack(values: seq<int>, widths: seq<nat>)
    requires |values| == |widths| && Pack(values, widths).Ok?
    ensures Unpack(Pack(values, widths).value, widths) == Ok(values)
  {
    var packed := Pack(values, widths).value;
    UnpackAtPack([], values, widths, []);
    assert [] + packed + [] == packed;
  }

  /** Packing the fields read from position `pos` gives back the octets they were read from. */
  lemma {:induction false} PackUnpackAt(b: seq<Byte>, pos: nat, widths: seq<nat>)
    requires pos + Size(widths) <= |b|
    ensures Pack(UnpackAt(b, pos, widths), widths) == Ok(b[pos..pos + Size(widths)])
    decreases widths
  {
    if widths != [] {
      var values := UnpackAt(b, pos, widths);
      var next := pos + widths[0];
      var field := b[pos..next];
      var rest := UnpackAt(b, next, widths[1..]);
      var restBytes := b[next..pos + Size(widths)];
      PackUnpackAt(b, next, widths[1..]);
      BigEndianUnpack(field);
      assert PackUInt(values[0], widths[0]) == Ok(field);
      assert values[1..] == rest;
      assert Pack(values, widths) == Ok(field + restBytes);
      assert field + restBytes == b[pos..pos + Size(widths)];
    } else {
      assert UnpackAt(b, pos, widths) == [];
      assert b[pos..pos + Size(widths)] == [];
    }
  }

  /** Packing what was unpacked gives back the octets. */
  lemma PackUnpack(b: seq<Byte>, widths: seq<nat>)
    requires Unpack(b, widths).Ok?
    ensures Pack(Unpack(b, widths).value, widths) == Ok(b)
  {
    PackUnpackAt(b, 0, widths);
    assert b[0..|b|] == b;
  }

  /** Packing two runs of fields one after the other is packing their concatenation. */
  lemma {:induction false} PackAppend(v1: seq<int>, w1: seq<nat>, v2: seq<int>, w2: seq<nat>)
    requires |v1| == |w1| && |v2| == |w2|
    requires Pack(v1, w1).Ok? && Pack(v2, w2).Ok?
    ensures Pack(v1 + v2, w1 + w2) == Ok(Pack(v1, w1).value + Pack(v2, w2).value)
  {
    if v1 != [] {
      var head := PackUInt(v1[0], w1[0]).value;
      var rest1 := Pack(v1[1..], w1[1..]).value;
      var packed2 := Pack(v2, w2).value;
      PackAppend(v1[1..], w1[1..], v2, w2);
      assert Pack(v1, w1) == Ok(head + rest1);
      assert Pack(v1 + v2, w1 + w2) == Ok(head + (rest1 + packed2)) by {
        assert (v1 + v2)[1..] == v1[1..] + v2;
        assert (w1 + w2)[1..] == w1[1..] + w2;
      }
      assert head + (rest1 + packed2) == (head + rest1) + packed2;
    } else {
      assert v1 + v2 == v2 && w1 + w2 == w2;
      assert Pack(v1, w1).value + Pack(v2, w2).value == Pack(v2, w2).value;
    }
  }

  /** A one-field format packs like the field alone. */
  lemma PackOne(x: int, width: nat)
    requires Fits(x, width)
    ensures Pack([x], [width]) == Ok(PackUInt(x, width).value)
  {
    assert Pack([x][1..], [width][1..]) == Ok([]);
    assert PackUInt(x, width).value + [] == PackUInt(x, width).value;
  }

  /** A value below 256 is written as leading zero octets and then itself. */
  lemma {:induction false} PackSmall(x: int, width: nat)
    requires 0 <= x < 256 && width >= 1
    ensures PackUInt(x, width) == Ok(seq(width - 1, _ => 0) + [x])
  {
    ZerosBigEndian(width - 1);
    assert Radix(width) == 256 * Radix(width - 1);
  }

  /** Zero is written as zero octets. */
  lemma {:induction false} ZerosBigEndian(width: nat)
    ensures BigEndian(0, width) == seq(width, _ => 0)
  {
    if width > 0 {
      ZerosBigEndian(width - 1);
    }
  }
}
