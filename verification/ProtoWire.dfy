/** The wire format of the generated protobuf code: base-128 varints, tagged fields, skipping. */
module ProtoWire {
  import opened MachineTypes
  import opened NaturalPowers

  datatype Error =
    | IntOverflow
    | UnexpectedEOF
    | InvalidLength
    | EndGroup
    | IllegalTag
    | WrongWireType
    | IllegalWireType
    | UnexpectedEndOfGroup

  // ---------- varints ----------

  function Varint(v: nat): (b: bytes)
    ensures |b| >= 1
  {
    if v < 128 then [v] else [v % 128 + 128] + Varint(v / 128)
  }

  /** math/bits.Len64. */
  function BitLength(x: nat): nat {
    if x == 0 then 0 else 1 + BitLength(x / 2)
  }

  /** sovTypes: the size of a varint, computed from the bit length of `x | 1`. */
  function Sov(x: nat): nat {
    (BitLength(if x % 2 == 0 then x + 1 else x) + 6) / 7
  }

  lemma BitLengthShifts(x: nat)
    requires x >= 128
    ensures BitLength(x) == 7 + BitLength(x / 128)
  {
    var a := x / 2;
    var b := a / 2;
    var c := b / 2;
    var d := c / 2;
    var e := d / 2;
    var f := e / 2;
    var g := f / 2;
    assert BitLength(x) == 1 + BitLength(a) && BitLength(a) == 1 + BitLength(b);
    assert BitLength(b) == 1 + BitLength(c) && BitLength(c) == 1 + BitLength(d);
    assert BitLength(d) == 1 + BitLength(e) && BitLength(e) == 1 + BitLength(f);
    assert BitLength(f) == 1 + BitLength(g);
    assert g == x / 128;
  }

  lemma SmallBitLength(x: nat)
    requires 1 <= x < 128
    ensures 1 <= BitLength(x) <= 7
  {
    BitLengthBound(x, 7);
  }

  lemma {:induction false} BitLengthBound(x: nat, n: nat)
    requires x < Pow(2, n)
    ensures BitLength(x) <= n
  {
    if x > 0 {
      BitLengthBound(x / 2, n - 1);
    }
  }

  /** sovTypes computes exactly the number of bytes encodeVarintTypes writes. */
  lemma {:induction false} SovIsVarintLength(v: nat)
    ensures |Varint(v)| == Sov(v)
  {
    var odd := if v % 2 == 0 then v + 1 else v;
    if v < 128 {
      SmallBitLength(odd);
    } else {
      SovIsVarintLength(v / 128);
      BitLengthShifts(odd);
      var next := v / 128;
      var nextOdd := if next % 2 == 0 then next + 1 else next;
      assert odd / 128 == next;
      assert BitLength(next) == 1 + BitLength(next / 2);
      assert nextOdd / 2 == next / 2;
    }
  }

  /** The value of the varint at the front of data, of which `index` bytes have been read before,
      without the final reduction to 64 bits; and what follows it. Ten bytes are the most. */
  function ReadUnreduced(data: bytes, index: nat): (r: Result<(nat, bytes), Error>)
    requires index <= 10
    ensures r.Ok? ==> |r.value.1| < |data|
    decreases 10 - index
  {
    if index == 10 then Err(IntOverflow)
    else if data == [] then Err(UnexpectedEOF)
    else if data[0] < 128 then Ok((data[0], data[1..]))
    else
      match ReadUnreduced(data[1..], index + 1)
      case Err(e) => Err(e)
      case Ok((high, rest)) => Ok((data[0] - 128 + 128 * high, rest))
  }

  lemma {:induction false} VarintLengthBound(v: nat, n: nat)
    requires n >= 1 && v < Pow(128, n)
    ensures |Varint(v)| <= n
  {
    if v >= 128 {
      assert Pow(128, 1) == 128;
      VarintLengthBound(v / 128, n - 1);
    }
  }

  /** A varint as the generated loops read it into a uint64: higher bits fall off. */
  function ReadVarint(data: bytes): (r: Result<(uint64, bytes), Error>)
    ensures r.Ok? ==> |r.value.1| < |data|
  {
    match ReadUnreduced(data, 0)
    case Err(e) => Err(e)
    case Ok((v, rest)) => Ok((v % TWO_TO_64, rest))
  }

  lemma {:induction false} ReadUndoesVarint(v: nat, index: nat, rest: bytes)
    requires index < 10 && v < Pow(128, 10 - index)
    ensures ReadUnreduced(Varint(v) + rest, index) == Ok((v, rest))
    decreases 10 - index
  {
    var data := Varint(v) + rest;
    if v < 128 {
      assert data[1..] == rest;
    } else {
      assert Pow(128, 1) == 128;
      assert index < 9;
      assert v / 128 < Pow(128, 9 - index);
      ReadUndoesVarint(v / 128, index + 1, rest);
      assert data[1..] == Varint(v / 128) + rest;
    }
  }

  lemma TenBytesAreEnough()
    ensures TWO_TO_64 <= Pow(128, 10)
  {
    assert Pow(128, 3) == 0x20_0000;
    assert Pow(128, 6) == 0x20_0000 * 0x20_0000;
    assert Pow(128, 9) == 0x20_0000 * 0x20_0000 * 0x20_0000;
  }

  lemma VarintFitsTenBytes(v: uint64)
    ensures |Varint(v)| <= 10
  {
    hide Pow;
    TenBytesAreEnough();
    VarintLengthBound(v, 10);
  }

  lemma {:induction false} VarintRoundTrip(v: uint64, rest: bytes)
    ensures ReadVarint(Varint(v) + rest) == Ok((v, rest))
  {
    hide ReadUnreduced, Varint, Pow;
    TenBytesAreEnough();
    ReadUndoesVarint(v, 0, rest);
  }

  /** `low` added to `sum` with the given weight: the shift and the bitwise or of the loop, whose
      operands never overlap. */
  function Accumulate(sum: nat, weight: nat, low: nat): (r: nat) {
    sum + weight * low
  }

  /** The result of a read of which `sum` is already known, and whose remaining part weighs `weight`. */
  function Shifted(r: Result<(nat, bytes), Error>, sum: nat, weight: nat): Result<(nat, bytes), Error> {
    match r
    case Err(e) => Err(e)
    case Ok((v, rest)) => Ok((Accumulate(sum, weight, v), rest))
  }

  lemma OneByteOn(data: bytes, index: nat, sum: nat, weight: nat)
    requires index < 10 && data != [] && data[0] >= 128
    ensures Shifted(ReadUnreduced(data, index), sum, weight)
         == Shifted(ReadUnreduced(data[1..], index + 1), Accumulate(sum, weight, data[0] - 128), weight * 128)
  {
    var r := ReadUnreduced(data[1..], index + 1);
    if r.Ok? {
      var high, low := r.value.0, data[0] - 128;
      assert weight * (low + 128 * high) == weight * low + (weight * 128) * high;
    }
  }

  lemma LastByte(data: bytes, index: nat, sum: nat, weight: nat)
    requires index < 10 && data != [] && data[0] < 128
    ensures Shifted(ReadUnreduced(data, index), sum, weight) == Ok((Accumulate(sum, weight, data[0]), data[1..]))
  {
  }

  lemma NoByte(data: bytes, index: nat, sum: nat, weight: nat)
    requires index <= 10 && (index == 10 || data == [])
    ensures Shifted(ReadUnreduced(data, index), sum, weight) == Err(if index == 10 then IntOverflow else UnexpectedEOF)
  {
  }

  lemma FirstByte(data: bytes)
    ensures Shifted(ReadUnreduced(data, 0), 0, 1) == ReadUnreduced(data, 0)
  {
  }

  /** The reading loop: at most ten bytes, the value accumulated with a growing shift. Result: the
      value and the index behind it. */
  method ReadVarintLoop(data: bytes, start: nat) returns (r: Result<(uint64, nat), Error>)
    requires start <= |data|
    ensures match ReadVarint(data[start..])
            case Err(e) => r == Err(e)
            case Ok((v, rest)) => r.Ok? && r.value.0 == v && start < r.value.1 <= |data| && rest == data[r.value.1..]
  {
    hide Shifted, ReadUnreduced, Accumulate;
    var iNdEx := start;
    var index, sum, weight := 0, 0, 1; // the shift is 7 * index, the weight 2 to the power of it
    ghost var whole := ReadUnreduced(data[start..], 0);
    FirstByte(data[start..]);
    while true
      invariant 0 <= index <= 10 && start <= iNdEx <= |data|
      invariant 0 <= sum && 0 < weight
      invariant whole == Shifted(ReadUnreduced(data[iNdEx..], index), sum, weight)
      decreases 10 - index
    {
      ghost var left := data[iNdEx..];
      if index == 10 {
        NoByte(left, index, sum, weight);
        return Err(IntOverflow);
      }
      if iNdEx >= |data| {
        NoByte(left, index, sum, weight);
        return Err(UnexpectedEOF);
      }
      var b := data[iNdEx];
      assert left[0] == b && left[1..] == data[iNdEx + 1..];
      if b < 128 {
        LastByte(left, index, sum, weight);
        return Ok((Accumulate(sum, weight, b) % TWO_TO_64, iNdEx + 1));
      }
      OneByteOn(left, index, sum, weight);
      sum := Accumulate(sum, weight, b - 128);
      weight := weight * 128;
      iNdEx, index := iNdEx + 1, index + 1;
    }
  }

  // ---------- fields ----------

  /** A varint field: zero is not written. */
  function VarintField(tag: byte, v: nat): bytes {
    if v == 0 then [] else [tag] + Varint(v)
  }

  /** A length-delimited field. */
  function LengthField(tag: byte, b: bytes): bytes {
    [tag] + Varint(|b|) + b
  }

  /** A bytes field: nil and empty are not written. */
  function BytesField(tag: byte, b: bytes): bytes {
    if b == [] then [] else LengthField(tag, b)
  }

  lemma VarintFieldSize(tag: byte, v: nat)
    ensures |VarintField(tag, v)| == if v == 0 then 0 else 1 + Sov(v)
  {
    SovIsVarintLength(v);
  }

  lemma IntFieldSize(tag: byte, x: int64)
    ensures |VarintField(tag, ToUint64(x))| == if x == 0 then 0 else 1 + Sov(ToUint64(x))
  {
    hide Sov;
    VarintFieldSize(tag, ToUint64(x));
  }

  lemma LengthFieldSize(tag: byte, b: bytes)
    ensures |LengthField(tag, b)| == 1 + |b| + Sov(|b|)
  {
    SovIsVarintLength(|b|);
  }

  lemma BytesFieldSize(tag: byte, b: bytes)
    ensures |BytesField(tag, b)| == if |b| > 0 then 1 + |b| + Sov(|b|) else 0
  {
    LengthFieldSize(tag, b);
  }

  /** The error of an index past the data: one that overflows an int has become negative. */
  function PastEnd(index: int): Error {
    if index > MAX_INT64 then InvalidLength else UnexpectedEOF
  }

  /** Reads a length. One that is negative as a Go int, or that reaches past the data, is an error.
      The data is the rest of a slice of `total` bytes. */
  function ReadLength(data: bytes, total: nat): (r: Result<(nat, bytes), Error>)
    ensures r.Ok? ==> r.value.0 <= |r.value.1| < |data|
  {
    match ReadVarint(data)
    case Err(e) => Err(e)
    case Ok((length, rest)) =>
      if ToInt64(length) < 0 then Err(InvalidLength)
      else if length > |rest| then Err(PastEnd(total - |rest| + length))
      else Ok((length, rest))
  }

  /** The payload of a length-delimited field, and what follows it. */
  function ReadPayload(data: bytes, total: nat): (r: Result<(bytes, bytes), Error>)
    ensures r.Ok? ==> |r.value.1| < |data|
  {
    match ReadLength(data, total)
    case Err(e) => Err(e)
    case Ok((length, rest)) => Ok((rest[..length], rest[length..]))
  }

  lemma LengthRoundTrip(length: nat, rest: bytes, total: nat)
    requires length <= |rest| && length <= MAX_INT64
    ensures ReadLength(Varint(length) + rest, total) == Ok((length, rest))
  {
    hide Varint, ReadVarint;
    VarintRoundTrip(length, rest);
    assert ToInt64(length) == length;
  }

  lemma PayloadRoundTrip(b: bytes, rest: bytes, total: nat)
    requires |b| <= MAX_INT64
    ensures ReadPayload(Varint(|b|) + b + rest, total) == Ok((b, rest))
  {
    hide Varint, ReadLength;
    assert Varint(|b|) + b + rest == Varint(|b|) + (b + rest);
    LengthRoundTrip(|b|, b + rest, total);
    assert (b + rest)[..|b|] == b && (b + rest)[|b|..] == rest;
  }

  /** The field number and wire type of a tag. */
  datatype Tag = Tag(fieldNum: int, wireType: nat)

  function ToInt32(x: nat): int {
    var r := x % TWO_TO_32;
    if r < 0x8000_0000 then r else r - TWO_TO_32
  }

  function ReadTag(data: bytes): (r: Result<(Tag, bytes), Error>)
    ensures r.Ok? ==> |r.value.1| < |data|
  {
    match ReadVarint(data)
    case Err(e) => Err(e)
    case Ok((wire, rest)) =>
      var tag := Tag(ToInt32(wire / 8), wire % 8);
      if tag.wireType == 4 then Err(EndGroup)
      else if tag.fieldNum <= 0 then Err(IllegalTag)
      else Ok((tag, rest))
  }

  lemma TagRoundTrip(tag: byte, rest: bytes)
    requires 8 <= tag < 128 && tag % 8 != 4
    ensures ReadTag([tag] + rest) == Ok((Tag(tag / 8, tag % 8), rest))
  {
    VarintRoundTrip(tag, rest);
  }

  // ---------- skipping ----------

  /** skipTypes: passes over one field with everything nested in it, and returns the index behind it.
      `data` is what stands from index `at` on. A skipped value may reach past the data; the index is
      then past the end, and the caller finds it there. */
  function Skip(data: bytes, at: nat, depth: nat): (r: Result<nat, Error>)
    ensures r.Ok? ==> r.value > at
    decreases |data|, 0
  {
    match ReadVarint(data)
    case Err(e) => Err(e)
    case Ok((wire, rest)) => SkipValue(wire % 8, rest, at + |data| - |rest|, depth)
  }

  /** The same, behind the tag. */
  function SkipValue(wireType: nat, data: bytes, at: nat, depth: nat): (r: Result<nat, Error>)
    ensures r.Ok? ==> r.value >= at
    decreases |data|, 3
  {
    match wireType
    case 0 =>
      (match ReadUnreduced(data, 0)
       case Err(e) => Err(e)
       case Ok((_, rest)) => SkipMore(rest, at + |data| - |rest|, depth))
    case 1 => SkipBytes(data, at, 8, depth)
    case 2 =>
      (match ReadVarint(data)
       case Err(e) => Err(e)
       case Ok((length, rest)) =>
         if ToInt64(length) < 0 then Err(InvalidLength)
         else SkipBytes(rest, at + |data| - |rest|, length, depth))
    case 3 => SkipMore(data, at, depth + 1)
    case 4 => if depth == 0 then Err(UnexpectedEndOfGroup) else SkipMore(data, at, depth - 1)
    case 5 => SkipBytes(data, at, 4, depth)
    case _ => Err(IllegalWireType)
  }

  function SkipBytes(data: bytes, at: nat, count: nat, depth: nat): (r: Result<nat, Error>)
    ensures r.Ok? ==> r.value >= at
    decreases |data|, 2
  {
    if count <= |data| then SkipMore(data[count..], at + count, depth)
    else if at + count > MAX_INT64 then Err(InvalidLength)
    else if depth == 0 then Ok(at + count)
    else Err(UnexpectedEOF)
  }

  function SkipMore(data: bytes, at: nat, depth: nat): (r: Result<nat, Error>)
    ensures r.Ok? ==> r.value >= at
    decreases |data|, 1
  {
    if depth == 0 then Ok(at) else Skip(data, at, depth)
  }
}
