/** Fields the reader does not know, as a newer writer may send them: skipTypes passes over exactly
    one of them, however deep its groups are nested, and the message is read as if it were not there. */
module ProtoUnknown {
  import opened MachineTypes
  import opened NaturalPowers
  import opened OracleTypes
  import opened ProtoWire
  import opened ProtoParsing

  datatype Value =
    | Number(v: uint64)
    | Fixed64(b: bytes)
    | Bytes(b: bytes)
    | Group(fields: seq<Unknown>)
    | Fixed32(b: bytes)

  datatype Unknown = Unknown(fieldNum: nat, value: Value)

  const MAX_FIELD_NUM := 0x1fff_ffff

  ghost predicate WellFormed(u: Unknown)
    decreases u
  {
    && 1 <= u.fieldNum <= MAX_FIELD_NUM
    && match u.value
       case Number(_) => true
       case Fixed64(b) => |b| == 8
       case Bytes(b) => |b| <= MAX_INT64
       case Group(fields) => forall f :: f in fields ==> WellFormed(f)
       case Fixed32(b) => |b| == 4
  }

  function TagBytes(fieldNum: nat, wireType: nat): bytes {
    Varint(fieldNum * 8 + wireType)
  }

  function Wire(u: Unknown): bytes
    decreases u, 0
  {
    match u.value
    case Number(v) => TagBytes(u.fieldNum, 0) + Varint(v)
    case Fixed64(b) => TagBytes(u.fieldNum, 1) + b
    case Bytes(b) => TagBytes(u.fieldNum, 2) + (Varint(|b|) + b)
    case Group(fields) => TagBytes(u.fieldNum, 3) + (Wires(fields) + TagBytes(u.fieldNum, 4))
    case Fixed32(b) => TagBytes(u.fieldNum, 5) + b
  }

  function Wires(list: seq<Unknown>): bytes
    decreases list, 1
  {
    if list == [] then [] else Wire(list[0]) + Wires(list[1..])
  }

  lemma TagBytesRead(fieldNum: nat, wireType: nat, rest: bytes)
    requires 1 <= fieldNum <= MAX_FIELD_NUM && wireType < 8
    ensures ReadVarint(TagBytes(fieldNum, wireType) + rest) == Ok((fieldNum * 8 + wireType, rest))
    ensures wireType != 4 ==> ReadTag(TagBytes(fieldNum, wireType) + rest) == Ok((Tag(fieldNum, wireType), rest))
  {
    hide Varint, ReadVarint;
    VarintRoundTrip(fieldNum * 8 + wireType, rest);
  }

  lemma SkipTag(fieldNum: nat, wireType: nat, rest: bytes, at: nat, depth: nat)
    requires 1 <= fieldNum <= MAX_FIELD_NUM && wireType < 8
    ensures Skip(TagBytes(fieldNum, wireType) + rest, at, depth)
         == SkipValue(wireType, rest, at + |TagBytes(fieldNum, wireType)|, depth)
  {
    hide TagBytes, ReadVarint, SkipValue;
    TagBytesRead(fieldNum, wireType, rest);
  }

  lemma NumberUnreduced(v: uint64, rest: bytes)
    ensures ReadUnreduced(Varint(v) + rest, 0) == Ok((v, rest))
  {
    hide Pow, ReadUnreduced, Varint;
    TenBytesAreEnough();
    ReadUndoesVarint(v, 0, rest);
  }

  /** Bytes that are there are passed over. */
  lemma BytesAreSkipped(b: bytes, rest: bytes, at: nat, depth: nat)
    ensures SkipBytes(b + rest, at, |b|, depth) == SkipMore(rest, at + |b|, depth)
  {
    hide SkipMore;
    assert (b + rest)[|b|..] == rest;
  }

  /** One field is passed over, whole: the index ends up right behind it. */
  lemma {:induction false} FieldIsSkipped(u: Unknown, rest: bytes, at: nat, depth: nat)
    requires WellFormed(u)
    ensures Skip(Wire(u) + rest, at, depth) == SkipMore(rest, at + |Wire(u)|, depth)
    decreases u, 0
  {
    hide TagBytes, Varint, ReadUnreduced, ReadVarint, SkipMore, Skip, SkipBytes;
    match u.value
    case Number(v) =>
      assert Wire(u) + rest == TagBytes(u.fieldNum, 0) + (Varint(v) + rest);
      SkipTag(u.fieldNum, 0, Varint(v) + rest, at, depth);
      NumberUnreduced(v, rest);
    case Fixed64(b) =>
      assert Wire(u) + rest == TagBytes(u.fieldNum, 1) + (b + rest);
      SkipTag(u.fieldNum, 1, b + rest, at, depth);
      BytesAreSkipped(b, rest, at + |TagBytes(u.fieldNum, 1)|, depth);
    case Bytes(b) =>
      var tag, length := TagBytes(u.fieldNum, 2), Varint(|b|);
      assert Wire(u) + rest == tag + (length + (b + rest));
      SkipTag(u.fieldNum, 2, length + (b + rest), at, depth);
      VarintRoundTrip(|b|, b + rest);
      assert ToInt64(|b|) == |b|;
      BytesAreSkipped(b, rest, at + |tag| + |length|, depth);
    case Group(fields) =>
      GroupIsSkipped(u.fieldNum, fields, rest, at, depth);
      var inside := Wires(fields) + (TagBytes(u.fieldNum, 4) + rest);
      assert Wire(u) + rest == TagBytes(u.fieldNum, 3) + inside;
    case Fixed32(b) =>
      assert Wire(u) + rest == TagBytes(u.fieldNum, 5) + (b + rest);
      SkipTag(u.fieldNum, 5, b + rest, at, depth);
      BytesAreSkipped(b, rest, at + |TagBytes(u.fieldNum, 5)|, depth);
  }

  lemma {:induction false} GroupIsSkipped(fieldNum: nat, fields: seq<Unknown>, rest: bytes, at: nat, depth: nat)
    requires 1 <= fieldNum <= MAX_FIELD_NUM && forall f :: f in fields ==> WellFormed(f)
    ensures Skip(TagBytes(fieldNum, 3) + (Wires(fields) + (TagBytes(fieldNum, 4) + rest)), at, depth)
         == SkipMore(rest, at + |TagBytes(fieldNum, 3)| + |Wires(fields)| + |TagBytes(fieldNum, 4)|, depth)
    decreases fields, 2
  {
    hide TagBytes, Wires, Skip;
    var start, end := TagBytes(fieldNum, 3), TagBytes(fieldNum, 4) + rest;
    SkipTag(fieldNum, 3, Wires(fields) + end, at, depth);
    FieldsAreSkipped(fields, end, at + |start|, depth + 1);
    SkipTag(fieldNum, 4, rest, at + |start| + |Wires(fields)|, depth + 1);
  }

  lemma {:induction false} FieldsAreSkipped(list: seq<Unknown>, rest: bytes, at: nat, depth: nat)
    requires depth > 0 && forall f :: f in list ==> WellFormed(f)
    ensures SkipMore(Wires(list) + rest, at, depth) == SkipMore(rest, at + |Wires(list)|, depth)
    decreases list, 1
  {
    hide Wire, Skip, WellFormed;
    if list == [] {
      assert [] + rest == rest;
    } else {
      assert Wires(list) + rest == Wire(list[0]) + (Wires(list[1..]) + rest);
      FieldIsSkipped(list[0], Wires(list[1..]) + rest, at, depth);
      FieldsAreSkipped(list[1..], rest, at + |Wire(list[0])|, depth);
    }
  }

  function WireTypeOf(v: Value): nat {
    match v
    case Number(_) => 0
    case Fixed64(_) => 1
    case Bytes(_) => 2
    case Group(_) => 3
    case Fixed32(_) => 5
  }

  lemma UnknownTag(u: Unknown, rest: bytes)
    requires WellFormed(u)
    ensures exists after :: ReadTag(Wire(u) + rest) == Ok((Tag(u.fieldNum, WireTypeOf(u.value)), after))
  {
    hide TagBytes, ReadTag, WellFormed, Varint, Wires;
    var w := WireTypeOf(u.value);
    var tag := TagBytes(u.fieldNum, w);
    var payload := match u.value
      case Number(v) => Varint(v)
      case Fixed64(b) => b
      case Bytes(b) => Varint(|b|) + b
      case Group(fields) => Wires(fields) + TagBytes(u.fieldNum, 4)
      case Fixed32(b) => b;
    assert Wire(u) == tag + payload;
    assert Wire(u) + rest == tag + (payload + rest);
    assert 1 <= u.fieldNum <= MAX_FIELD_NUM by { WellFormedNumber(u); }
    TagBytesRead(u.fieldNum, w, payload + rest);
  }

  lemma WellFormedNumber(u: Unknown)
    requires WellFormed(u)
    ensures 1 <= u.fieldNum <= MAX_FIELD_NUM
  {
  }

  /** A request reads the same with a field of an unknown number in front of the rest. */
  lemma UnknownFieldIsIgnored(m: Request, u: Unknown, rest: bytes, total: nat)
    requires WellFormed(u) && u.fieldNum > 9
    ensures ParseRequest(m, Wire(u) + rest, total) == ParseRequest(m, rest, total)
  {
    hide Skip, Wire, WellFormed, ReadTag;
    UnknownTag(u, rest);
    FieldIsSkipped(u, rest, 0, 0);
    assert (Wire(u) + rest)[|Wire(u)|..] == rest;
    assert RequestNext(m, Wire(u) + rest, total) == Ok((m, rest));
    assert Wire(u) + rest != [] by { FieldIsNotEmpty(u); }
  }

  lemma FieldIsNotEmpty(u: Unknown)
    ensures Wire(u) != []
  {
  }
}
