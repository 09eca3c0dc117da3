/** The OBI encoding of Go values: encoder and decoder. */
module Obi {
  import opened MachineTypes
  import opened NaturalPowers

  datatype Width = W8 | W16 | W32 | W64 {
    function Size(): nat {
      match this
      case W8 => 1
      case W16 => 2
      case W32 => 4
      case W64 => 8
    }

    /** The number of values of this width. */
    function Range(): nat {
      match this
      case W8 => 0x100
      case W16 => 0x1_0000
      case W32 => TWO_TO_32
      case W64 => TWO_TO_64
    }
  }

  /** A Go type as reflection shows it. Other is any kind the codec does not list. A struct field
      carries its `obi` tag, if it has one. */
  datatype GoType =
    | Uint(width: Width)
    | Int(width: Width)
    | Str
    | Slice(elem: GoType)
    | Struct(fields: seq<Field>)
    | Other

  datatype Field = Field(tag: Option<string>, goType: GoType)

  const BYTE_SLICE := Slice(Uint(W8))

  datatype Value =
    | Number(n: int)
    | Text(text: bytes) // a string or a []uint8
    | List(items: seq<Value>)
    | Record(values: seq<Value>)
    | Foreign // a value of a kind the codec does not list

  datatype Error = Unsupported | OutOfRange | NotAllConsumed

  predicate HasType(v: Value, t: GoType)
    decreases t
  {
    match t
    case Uint(w) => v.Number? && 0 <= v.n < w.Range()
    case Int(w) => v.Number? && -(w.Range() / 2) <= v.n < w.Range() / 2
    case Str => v.Text?
    case Slice(elem) => if t == BYTE_SLICE then v.Text? else v.List? && forall x :: x in v.items ==> HasType(x, elem)
    case Struct(fields) =>
      v.Record? && |v.values| == |fields| && forall i :: 0 <= i < |fields| ==> HasType(v.values[i], fields[i].goType)
    case Other => v.Foreign?
  }

  /** Every length fits the 32-bit length prefix. */
  predicate LengthsFit(v: Value) {
    match v
    case Text(text) => |text| < TWO_TO_32
    case List(items) => |items| < TWO_TO_32 && forall x :: x in items ==> LengthsFit(x)
    case Record(values) => forall x :: x in values ==> LengthsFit(x)
    case _ => true
  }

  // ---------- integers ----------

  /** The `size` low-order bytes of n, most significant first. */
  function BigEndian(n: nat, size: nat): (b: bytes)
    ensures |b| == size
  {
    if size == 0 then [] else BigEndian(n / 256, size - 1) + [n % 256]
  }

  function FromBigEndian(b: bytes): nat {
    if b == [] then 0 else FromBigEndian(b[..|b| - 1]) * 256 + b[|b| - 1]
  }

  lemma {:induction false} BigEndianInverse(n: nat, size: nat)
    requires n < Pow(256, size)
    ensures FromBigEndian(BigEndian(n, size)) == n
  {
    if size > 0 {
      BigEndianInverse(n / 256, size - 1);
      assert BigEndian(n, size)[..size - 1] == BigEndian(n / 256, size - 1);
    }
  }

  lemma {:induction false} FromBigEndianInverse(b: bytes)
    ensures FromBigEndian(b) < Pow(256, |b|)
    ensures BigEndian(FromBigEndian(b), |b|) == b
  {
    if b != [] {
      var n := |b| - 1;
      FromBigEndianInverse(b[..n]);
      assert b == b[..n] + [b[n]];
    }
  }

  lemma WidthIsPower(w: Width)
    ensures w.Range() == Pow(256, w.Size())
  {
    assert Pow(256, 1) == 256 && Pow(256, 2) == 0x1_0000 && Pow(256, 3) == 0x100_0000;
    assert Pow(256, 4) == TWO_TO_32 && Pow(256, 5) == 256 * TWO_TO_32 && Pow(256, 6) == 0x1_0000 * TWO_TO_32;
    assert Pow(256, 7) == 0x100_0000 * TWO_TO_32;
  }

  /** Go's conversion of a number to the unsigned type of width w. */
  function Unsigned(n: int, w: Width): nat {
    n % w.Range()
  }

  /** Go's conversion of an unsigned number of width w to the signed type of the same width. */
  function Signed(n: nat, w: Width): int {
    if n < w.Range() / 2 then n else n - w.Range()
  }

  function EncodeUnsigned(n: nat, w: Width): bytes {
    BigEndian(n, w.Size())
  }

  function DecodeUnsigned(data: bytes, w: Width): Result<(nat, bytes), Error> {
    if |data| < w.Size() then Err(OutOfRange)
    else Ok((FromBigEndian(data[..w.Size()]), data[w.Size()..]))
  }

  lemma UnsignedRoundTrip(n: nat, w: Width, rest: bytes)
    requires n < w.Range()
    ensures DecodeUnsigned(EncodeUnsigned(n, w) + rest, w) == Ok((n, rest))
  {
    hide BigEndian, FromBigEndian, Pow;
    WidthIsPower(w);
    BigEndianInverse(n, w.Size());
    var data := EncodeUnsigned(n, w) + rest;
    assert data[..w.Size()] == EncodeUnsigned(n, w) && data[w.Size()..] == rest;
  }

  lemma DecodedUnsignedEncodes(data: bytes, w: Width)
    requires DecodeUnsigned(data, w).Ok?
    ensures var (n, rest) := DecodeUnsigned(data, w).value;
            n < w.Range() && data == EncodeUnsigned(n, w) + rest
  {
    hide BigEndian, FromBigEndian, Pow;
    WidthIsPower(w);
    FromBigEndianInverse(data[..w.Size()]);
  }

  // ---------- texts ----------

  function Length(n: nat): bytes {
    EncodeUnsigned(Unsigned(n, W32), W32)
  }

  function EncodeBytes(b: bytes): bytes {
    Length(|b|) + b
  }

  /** The decoder compares the length with `uint32(len(rem))`, the remaining length modulo 2^32. */
  function DecodeBytes(data: bytes): Result<(bytes, bytes), Error> {
    match DecodeUnsigned(data, W32)
    case Err(e) => Err(e)
    case Ok((length, rem)) =>
      if Unsigned(|rem|, W32) < length then Err(OutOfRange)
      else Ok((rem[..length], rem[length..]))
  }

  /** `b` followed by `tail` more bytes passes the decoder's length check. */
  predicate PassesLengthCheck(b: bytes, tail: nat) {
    (|b| + tail) % TWO_TO_32 >= |b|
  }

  /** A text decodes again exactly if the truncated length of what is left still covers it. */
  lemma BytesRoundTripIff(b: bytes, rest: bytes)
    requires |b| < TWO_TO_32
    ensures DecodeBytes(EncodeBytes(b) + rest) == if PassesLengthCheck(b, |rest|) then Ok((b, rest)) else Err(OutOfRange)
  {
    hide EncodeUnsigned, DecodeUnsigned;
    assert EncodeBytes(b) + rest == EncodeUnsigned(|b|, W32) + (b + rest);
    UnsignedRoundTrip(|b|, W32, b + rest);
    assert (b + rest)[..|b|] == b && (b + rest)[|b|..] == rest;
  }

  lemma DecodedBytesEncode(data: bytes)
    requires DecodeBytes(data).Ok?
    ensures var (b, rest) := DecodeBytes(data).value;
            |b| < TWO_TO_32 && data == EncodeBytes(b) + rest && PassesLengthCheck(b, |rest|)
  {
    hide EncodeUnsigned, DecodeUnsigned;
    DecodedUnsignedEncodes(data, W32);
    var (length, rem) := DecodeUnsigned(data, W32).value;
    assert rem == rem[..length] + rem[length..];
  }

  // ---------- values ----------

  function Encoding(v: Value, t: GoType): Result<bytes, Error>
    requires HasType(v, t)
    decreases t, 0, 0
  {
    match t
    case Uint(w) => Ok(EncodeUnsigned(v.n, w))
    case Int(w) => Ok(EncodeUnsigned(Unsigned(v.n, w), w))
    case Str => Ok(EncodeBytes(v.text))
    case Slice(elem) =>
      if t == BYTE_SLICE then Ok(EncodeBytes(v.text))
      else After(Ok(Length(|v.items|)), ItemsEncoding(v.items, elem))
    case Struct(fields) => FieldsEncoding(v.values, fields)
    case Other => Err(Unsupported)
  }

  function ItemsEncoding(items: seq<Value>, elem: GoType): Result<bytes, Error>
    requires forall x :: x in items ==> HasType(x, elem)
    decreases elem, 1, |items|
  {
    if items == [] then Ok([]) else After(Encoding(items[0], elem), ItemsEncoding(items[1..], elem))
  }

  function FieldsEncoding(values: seq<Value>, fields: seq<Field>): Result<bytes, Error>
    requires |values| == |fields| && forall i :: 0 <= i < |fields| ==> HasType(values[i], fields[i].goType)
    decreases fields, 1, 0
  {
    if fields == [] then Ok([])
    else
      var first := fields[0];
      assert first.goType < first;
      After(Encoding(values[0], first.goType), FieldsEncoding(values[1..], fields[1..]))
  }

  function After(first: Result<bytes, Error>, rest: Result<bytes, Error>): Result<bytes, Error> {
    match first
    case Err(e) => Err(e)
    case Ok(a) =>
      match rest
      case Err(e) => Err(e)
      case Ok(b) => Ok(a + b)
  }

  function Decoding(t: GoType, data: bytes): Result<(Value, bytes), Error>
    decreases t, 0, 0
  {
    match t
    case Uint(w) =>
      (match DecodeUnsigned(data, w)
       case Err(e) => Err(e)
       case Ok((n, rem)) => Ok((Number(n), rem)))
    case Int(w) =>
      (match DecodeUnsigned(data, w)
       case Err(e) => Err(e)
       case Ok((n, rem)) => Ok((Number(Signed(n, w)), rem)))
    case Str => TextDecoding(data)
    case Slice(elem) =>
      if t == BYTE_SLICE then TextDecoding(data)
      else
        (match DecodeUnsigned(data, W32)
         case Err(e) => Err(e)
         case Ok((length, rem)) =>
           match ItemsDecoding(elem, length, rem)
           case Err(e) => Err(e)
           case Ok((items, rem)) => Ok((List(items), rem)))
    case Struct(fields) =>
      (match FieldsDecoding(fields, data)
       case Err(e) => Err(e)
       case Ok((values, rem)) => Ok((Record(values), rem)))
    case Other => Err(Unsupported)
  }

  function TextDecoding(data: bytes): Result<(Value, bytes), Error> {
    match DecodeBytes(data)
    case Err(e) => Err(e)
    case Ok((text, rem)) => Ok((Text(text), rem))
  }

  function ItemsDecoding(elem: GoType, count: nat, data: bytes): Result<(seq<Value>, bytes), Error>
    decreases elem, 1, count
  {
    if count == 0 then Ok(([], data))
    else
      match Decoding(elem, data)
      case Err(e) => Err(e)
      case Ok((v, rem)) =>
        match ItemsDecoding(elem, count - 1, rem)
        case Err(e) => Err(e)
        case Ok((rest, rem)) => Ok(([v] + rest, rem))
  }

  function FieldsDecoding(fields: seq<Field>, data: bytes): Result<(seq<Value>, bytes), Error>
    decreases fields, 1, 0
  {
    if fields == [] then Ok(([], data))
    else
      var first := fields[0];
      assert first.goType < first;
      match Decoding(first.goType, data)
      case Err(e) => Err(e)
      case Ok((v, rem)) =>
        match FieldsDecoding(fields[1..], rem)
        case Err(e) => Err(e)
        case Ok((rest, rem)) => Ok(([v] + rest, rem))
  }

  /** Decode: the whole input must be consumed. */
  function DecodeAll(t: GoType, data: bytes): Result<Value, Error> {
    match Decoding(t, data)
    case Err(e) => Err(e)
    case Ok((v, rem)) => if rem != [] then Err(NotAllConsumed) else Ok(v)
  }
}
