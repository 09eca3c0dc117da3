/** The bytes of a message as the Protocol Buffers encoding lays them out, and what a reader refuses. */
module ProtoBytes {
  import opened MachineTypes
  import opened NaturalPowers
  import opened OracleTypes
  import opened ProtoWire
  import opened ProtoMarshal
  import opened ProtoParsing
  import B = ObiBytes
  import R = ProtoRoundTrip

  // ---------- varints ----------

  /** A varint has as many bytes as the number has digits to the base 128 ... */
  lemma {:induction false} VarintLength(v: nat)
    ensures v < Pow(128, |Varint(v)|)
    ensures |Varint(v)| > 1 ==> v >= Pow(128, |Varint(v)| - 1)
  {
    assert Pow(128, 0) == 1 && Pow(128, 1) == 128;
    if v >= 128 {
      var n := |Varint(v / 128)|;
      VarintLength(v / 128);
      assert |Varint(v)| == n + 1;
      hide Varint, Pow;
      OneDigitMore(v, n);
      if n > 1 {
        OneDigitMore(v, n - 1);
      }
    }
  }

  lemma OneDigitMore(v: nat, n: nat)
    ensures v / 128 < Pow(128, n) <==> v < Pow(128, n + 1)
  {
    var p := Pow(128, n);
    assert Pow(128, n + 1) == 128 * p;
  }

  /** ... and byte k is digit k from the lowest on, every byte but the last with the continuation bit. */
  lemma {:induction false} VarintByte(v: nat, k: nat)
    requires k < |Varint(v)|
    ensures Pow(128, k) > 0
    ensures Varint(v)[k] == v / Pow(128, k) % 128 + if k < |Varint(v)| - 1 then 128 else 0
  {
    assert Pow(128, 0) == 1;
    if k > 0 {
      VarintByte(v / 128, k - 1);
      assert Varint(v) == [v % 128 + 128] + Varint(v / 128);
      hide Varint, Pow;
      DigitShifts(v, k);
    }
  }

  lemma DigitShifts(v: nat, k: nat)
    requires k > 0
    ensures Pow(128, k - 1) > 0 && Pow(128, k) > 0
    ensures v / 128 / Pow(128, k - 1) == v / Pow(128, k)
  {
    PowPositive(128, k - 1);
    PowPositive(128, k);
    B.DivideTwice(v, 128, Pow(128, k - 1));
  }

  // ---------- the layout of the messages ----------

  /** A field begins with its number and its wire type: 0 for a varint, 2 for a length and that many bytes. */
  function Scalar(number: nat, v: nat): bytes {
    if v == 0 then [] else Varint(8 * number) + Varint(v)
  }

  function Delimited(number: nat, b: bytes): bytes {
    Varint(8 * number + 2) + Varint(|b|) + b
  }

  function Text(number: nat, b: bytes): bytes {
    if b == [] then [] else Delimited(number, b)
  }

  /** One length-delimited field for each payload, in order. */
  function Repeated(number: nat, payloads: seq<bytes>): bytes {
    B.Concatenated(seq(|payloads|, i requires 0 <= i < |payloads| => Delimited(number, payloads[i])))
  }

  lemma SmallKeys(number: nat)
    requires number < 16
    ensures Varint(8 * number) == [8 * number]
    ensures number < 15 ==> Varint(8 * number + 2) == [8 * number + 2]
  {
  }

  lemma FieldsAreLaidOut(number: nat, v: nat, b: bytes)
    requires 1 <= number < 15
    ensures VarintField(8 * number, v) == Scalar(number, v)
    ensures BytesField(8 * number + 2, b) == Text(number, b)
    ensures LengthField(8 * number + 2, b) == Delimited(number, b)
  {
    SmallKeys(number);
    hide Varint;
  }

  lemma RawReportLayout(m: RawReport)
    ensures RawReportWire(m, 1) == Scalar(1, ToUint64(m.externalID)) + (Scalar(2, m.exitCode) + Text(3, m.data))
  {
    RawReportUnfolds(m);
    FieldsAreLaidOut(1, ToUint64(m.externalID), []);
    FieldsAreLaidOut(2, m.exitCode, []);
    FieldsAreLaidOut(3, 0, m.data);
    hide Scalar, Text, RawReportWire, VarintField, BytesField, LengthField;
  }

  lemma IBCInfoLayout(m: IBCInfo)
    ensures IBCInfoWire(m, 1) == Text(1, m.sourcePort) + Text(2, m.sourceChannel)
  {
    IBCInfoUnfolds(m);
    FieldsAreLaidOut(1, 0, m.sourcePort);
    FieldsAreLaidOut(2, 0, m.sourceChannel);
    hide Text, IBCInfoWire, BytesField, LengthField;
  }

  lemma {:induction false} RepeatedFront(number: nat, first: bytes, rest: seq<bytes>)
    ensures Repeated(number, [first] + rest) == Delimited(number, first) + Repeated(number, rest)
  {
    hide Delimited;
    var all := [first] + rest;
    var fields := seq(|all|, i requires 0 <= i < |all| => Delimited(number, all[i]));
    var later := seq(|rest|, i requires 0 <= i < |rest| => Delimited(number, rest[i]));
    assert fields == [Delimited(number, first)] + later;
    B.ConcatenatedFront(Delimited(number, first), later);
  }

  function Wires(list: seq<RawReport>): seq<bytes> {
    seq(|list|, i requires 0 <= i < |list| => RawReportWire(list[i], 1))
  }

  lemma {:induction false} RawReportsAreRepeated(list: seq<RawReport>)
    ensures RawReportsField(0x1a, list) == Repeated(3, Wires(list))
  {
    if list != [] {
      assert RawReportsField(0x1a, list) == LengthField(0x1a, RawReportWire(list[0], 1)) + RawReportsField(0x1a, list[1..]);
      hide RawReportWire, RawReportsField, Repeated, Delimited, LengthField, VarintField, BytesField, Scalar, Text;
      RawReportsAreRepeated(list[1..]);
      FieldsAreLaidOut(3, 0, RawReportWire(list[0], 1));
      assert Wires(list) == [RawReportWire(list[0], 1)] + Wires(list[1..]);
      RepeatedFront(3, RawReportWire(list[0], 1), Wires(list[1..]));
    }
  }

  /** A report: field 1 the validator, field 2 a varint 1 for the flag, field 3 once for each raw report. */
  lemma ReportLayout(m: Report)
    ensures ReportWire(m, 1)
         == Text(1, m.validator.raw) + (Scalar(2, if m.inBeforeResolve then 1 else 0) + Repeated(3, Wires(m.rawReports)))
  {
    ReportUnfolds(m);
    FieldsAreLaidOut(1, 0, m.validator.raw);
    RawReportsAreRepeated(m.rawReports);
    FlagIsLaidOut(m);
    assert ReportField(m, 1) == Text(1, m.validator.raw) && ReportField(m, 3) == Repeated(3, Wires(m.rawReports));
    hide *;
  }

  lemma FlagIsLaidOut(m: Report)
    ensures ReportField(m, 2) == Scalar(2, if m.inBeforeResolve then 1 else 0)
  {
    SmallKeys(2);
    assert Varint(1) == [1] && [0x10] + [1] == [0x10, 1];
  }

  function Payloads(list: seq<Address>): seq<bytes> {
    seq(|list|, i requires 0 <= i < |list| => list[i].raw)
  }

  lemma {:induction false} AddressesAreRepeated(list: seq<Address>)
    ensures AddressesField(0x1a, list) == Repeated(3, Payloads(list))
  {
    if list != [] {
      assert AddressesField(0x1a, list) == LengthField(0x1a, list[0].raw) + AddressesField(0x1a, list[1..]);
      hide AddressesField, Repeated, Delimited, LengthField, VarintField, BytesField, Scalar, Text;
      AddressesAreRepeated(list[1..]);
      FieldsAreLaidOut(3, 0, list[0].raw);
      assert Payloads(list) == [list[0].raw] + Payloads(list[1..]);
      RepeatedFront(3, list[0].raw, Payloads(list[1..]));
    }
  }

  function Varints(ids: seq<ExternalID>): seq<bytes> {
    seq(|ids|, i requires 0 <= i < |ids| => Varint(ToUint64(ids[i])))
  }

  lemma {:induction false} PackedIsConcatenated(ids: seq<ExternalID>)
    ensures Packed(ids) == B.Concatenated(Varints(ids))
  {
    hide Varint, ToUint64;
    if ids != [] {
      PackedIsConcatenated(ids[1..]);
      assert Varints(ids) == [Varint(ToUint64(ids[0]))] + Varints(ids[1..]);
      B.ConcatenatedFront(Varint(ToUint64(ids[0])), Varints(ids[1..]));
      hide B.Concatenated;
    }
  }

  /** A request: its nine fields in the order of their numbers; the external IDs packed into one. */
  lemma RequestLayout(m: Request)
    ensures RequestWire(m, 1)
         == Scalar(1, ToUint64(m.oracleScriptID))
          + (Text(2, m.calldata)
          + (Repeated(3, Payloads(m.requestedValidators))
          + (Scalar(4, m.minCount)
          + (Scalar(5, ToUint64(m.requestHeight))
          + (Scalar(6, ToUint64(m.requestTime))
          + (Text(7, m.clientID)
          + ((if m.ibcInfo.Some?
              then Delimited(8, Text(1, m.ibcInfo.value.sourcePort) + Text(2, m.ibcInfo.value.sourceChannel)) else [])
          + Text(9, B.Concatenated(Varints(m.rawRequestIDs))))))))))
  {
    RequestFieldsLaidOut(m);
    NineFields(m);
    hide *;
  }

  lemma NineFields(m: Request)
    ensures RequestWire(m, 1)
         == RequestField(m, 1) + (RequestField(m, 2) + (RequestField(m, 3) + (RequestField(m, 4) + (RequestField(m, 5)
          + (RequestField(m, 6) + (RequestField(m, 7) + (RequestField(m, 8) + RequestField(m, 9))))))))
  {
    hide RequestField;
    assert RequestWire(m, 9) == RequestField(m, 9);
    assert RequestWire(m, 8) == RequestField(m, 8) + RequestWire(m, 9);
    assert RequestWire(m, 7) == RequestField(m, 7) + RequestWire(m, 8);
    assert RequestWire(m, 6) == RequestField(m, 6) + RequestWire(m, 7);
    assert RequestWire(m, 5) == RequestField(m, 5) + RequestWire(m, 6);
    assert RequestWire(m, 4) == RequestField(m, 4) + RequestWire(m, 5);
    assert RequestWire(m, 3) == RequestField(m, 3) + RequestWire(m, 4);
    assert RequestWire(m, 2) == RequestField(m, 2) + RequestWire(m, 3);
  }

  lemma RequestFieldsLaidOut(m: Request)
    ensures RequestField(m, 1) == Scalar(1, ToUint64(m.oracleScriptID)) && RequestField(m, 2) == Text(2, m.calldata)
    ensures RequestField(m, 3) == Repeated(3, Payloads(m.requestedValidators))
    ensures RequestField(m, 4) == Scalar(4, m.minCount) && RequestField(m, 5) == Scalar(5, ToUint64(m.requestHeight))
    ensures RequestField(m, 6) == Scalar(6, ToUint64(m.requestTime)) && RequestField(m, 7) == Text(7, m.clientID)
    ensures RequestField(m, 8)
         == if m.ibcInfo.Some?
            then Delimited(8, Text(1, m.ibcInfo.value.sourcePort) + Text(2, m.ibcInfo.value.sourceChannel)) else []
    ensures RequestField(m, 9) == Text(9, B.Concatenated(Varints(m.rawRequestIDs)))
  {
    hide Varint, ToUint64, IBCInfoWire, B.Concatenated;
    FieldsAreLaidOut(1, ToUint64(m.oracleScriptID), []);
    FieldsAreLaidOut(2, 0, m.calldata);
    AddressesAreRepeated(m.requestedValidators);
    FieldsAreLaidOut(4, m.minCount, []);
    FieldsAreLaidOut(5, ToUint64(m.requestHeight), []);
    FieldsAreLaidOut(6, ToUint64(m.requestTime), []);
    FieldsAreLaidOut(7, 0, m.clientID);
    if m.ibcInfo.Some? {
      IBCInfoLayout(m.ibcInfo.value);
      FieldsAreLaidOut(8, 0, IBCInfoWire(m.ibcInfo.value, 1));
    }
    PackedIsConcatenated(m.rawRequestIDs);
    FieldsAreLaidOut(9, 0, Packed(m.rawRequestIDs));
    PackedIsEmptyIff(m.rawRequestIDs);
    hide Scalar, Text, Repeated, Delimited, VarintField, BytesField, LengthField, AddressesField, Packed;
    assert BytesField(0x4a, Packed(m.rawRequestIDs)) == RequestField(m, 9) by { NinthField(m); }
  }

  lemma NinthField(m: Request)
    ensures BytesField(0x4a, Packed(m.rawRequestIDs)) == RequestField(m, 9)
  {
    PackedIsEmptyIff(m.rawRequestIDs);
    hide Packed, LengthField;
  }

  lemma PackedIsEmptyIff(ids: seq<ExternalID>)
    ensures Packed(ids) == [] <==> ids == []
  {
  }

  // ---------- what is taken that no writer sends ----------

  /** A varint of up to ten bytes may hold more than 64 bits: the upper ones fall off. */
  lemma LargeVarintIsReduced(v: nat, rest: bytes)
    requires v < Pow(128, 10)
    ensures ReadVarint(Varint(v) + rest) == Ok((v % TWO_TO_64, rest))
  {
    hide ReadUnreduced, Varint, Pow;
    ReadUndoesVarint(v, 0, rest);
  }

  lemma NumberReads(number: nat, v: uint64, rest: bytes)
    requires 1 <= number <= 9
    ensures ReadTag([8 * number] + Varint(v) + rest) == Ok((Tag(number, 0), Varint(v) + rest))
    ensures VarintValue(Tag(number, 0), Varint(v) + rest) == Ok((v, rest))
  {
    hide Varint, ReadTag, ReadVarint;
    assert [8 * number] + Varint(v) + rest == [8 * number] + (Varint(v) + rest);
    TagRoundTrip(8 * number, Varint(v) + rest);
    VarintRoundTrip(v, rest);
  }

  /** A number that is written replaces the one that is there, a zero too. It is cut to the width of its field,
      and any flag but 0 means true. */
  lemma NumbersReplace(q: Request, r: Report, w: RawReport, v: uint64, rest: bytes, total: nat)
    ensures RequestNext(q, [0x8] + Varint(v) + rest, total) == Ok((q.(oracleScriptID := ToInt64(v)), rest))
    ensures RequestNext(q, [0x20] + Varint(v) + rest, total) == Ok((q.(minCount := v), rest))
    ensures RequestNext(q, [0x28] + Varint(v) + rest, total) == Ok((q.(requestHeight := ToInt64(v)), rest))
    ensures RequestNext(q, [0x30] + Varint(v) + rest, total) == Ok((q.(requestTime := ToInt64(v)), rest))
    ensures ReportNext(r, [0x10] + Varint(v) + rest, total) == Ok((r.(inBeforeResolve := v != 0), rest))
    ensures RawReportNext(w, [0x8] + Varint(v) + rest, total) == Ok((w.(externalID := ToInt64(v)), rest))
    ensures RawReportNext(w, [0x10] + Varint(v) + rest, total) == Ok((w.(exitCode := v % TWO_TO_32), rest))
  {
    hide Varint, ReadTag, VarintValue, ToInt64;
    NumberReads(1, v, rest);
    NumberReads(2, v, rest);
    NumberReads(4, v, rest);
    NumberReads(5, v, rest);
    NumberReads(6, v, rest);
  }

  /** So do bytes, empty ones too; validators are appended. */
  lemma BytesReplace(q: Request, r: Report, w: RawReport, info: IBCInfo, b: bytes, rest: bytes, total: nat)
    requires |b| <= MAX_INT64
    ensures RequestNext(q, LengthField(0x12, b) + rest, total) == Ok((q.(calldata := b), rest))
    ensures RequestNext(q, LengthField(0x3a, b) + rest, total) == Ok((q.(clientID := b), rest))
    ensures RequestNext(q, LengthField(0x1a, b) + rest, total)
         == Ok((q.(requestedValidators := q.requestedValidators + [Address(b)]), rest))
    ensures ReportNext(r, LengthField(0xa, b) + rest, total) == Ok((r.(validator := Address(b)), rest))
    ensures RawReportNext(w, LengthField(0x1a, b) + rest, total) == Ok((w.(data := b), rest))
    ensures IBCInfoNext(info, LengthField(0xa, b) + rest, total) == Ok((info.(sourcePort := b), rest))
    ensures IBCInfoNext(info, LengthField(0x12, b) + rest, total) == Ok((info.(sourceChannel := b), rest))
  {
    hide Varint, ReadTag, PayloadValue, LengthField;
    R.LengthFieldReads(0x12, b, rest, total);
    R.LengthFieldReads(0x3a, b, rest, total);
    R.LengthFieldReads(0x1a, b, rest, total);
    R.LengthFieldReads(0xa, b, rest, total);
  }

  // ---------- what is refused ----------

  /** A field of a known number with another wire type than its own is refused; so is the end of a group
      outside any group, and the field number 0. */
  lemma RequestRefuses(m: Request, number: nat, wireType: nat, rest: bytes, total: nat)
    requires number <= 9 && wireType < 8
    ensures var r := RequestNext(m, Varint(8 * number + wireType) + rest, total);
            && (wireType == 4 ==> r == Err(EndGroup))
            && (wireType != 4 && number == 0 ==> r == Err(IllegalTag))
            && (wireType != 4 && number in {1, 4, 5, 6} && wireType != 0 ==> r == Err(WrongWireType))
            && (wireType != 4 && number in {2, 3, 7, 8} && wireType != 2 ==> r == Err(WrongWireType))
            && (wireType != 4 && number == 9 && wireType != 0 && wireType != 2 ==> r == Err(WrongWireType))
  {
    KeyReads(number, wireType, rest);
    hide Varint, ReadTag, ReadVarint, ReadPayload, SkipUnknown;
  }

  lemma ReportRefuses(m: Report, number: nat, wireType: nat, rest: bytes, total: nat)
    requires number <= 3 && wireType < 8
    ensures var r := ReportNext(m, Varint(8 * number + wireType) + rest, total);
            && (wireType == 4 ==> r == Err(EndGroup))
            && (wireType != 4 && number == 0 ==> r == Err(IllegalTag))
            && (wireType != 4 && number in {1, 3} && wireType != 2 ==> r == Err(WrongWireType))
            && (wireType != 4 && number == 2 && wireType != 0 ==> r == Err(WrongWireType))
  {
    KeyReads(number, wireType, rest);
    hide Varint, ReadTag, ReadVarint, ReadPayload, SkipUnknown;
  }

  lemma RawReportRefuses(m: RawReport, number: nat, wireType: nat, rest: bytes, total: nat)
    requires number <= 3 && wireType < 8
    ensures var r := RawReportNext(m, Varint(8 * number + wireType) + rest, total);
            && (wireType == 4 ==> r == Err(EndGroup))
            && (wireType != 4 && number == 0 ==> r == Err(IllegalTag))
            && (wireType != 4 && number in {1, 2} && wireType != 0 ==> r == Err(WrongWireType))
            && (wireType != 4 && number == 3 && wireType != 2 ==> r == Err(WrongWireType))
  {
    KeyReads(number, wireType, rest);
    hide Varint, ReadTag, ReadVarint, ReadPayload, SkipUnknown;
  }

  lemma IBCInfoRefuses(m: IBCInfo, number: nat, wireType: nat, rest: bytes, total: nat)
    requires number <= 2 && wireType < 8
    ensures var r := IBCInfoNext(m, Varint(8 * number + wireType) + rest, total);
            && (wireType == 4 ==> r == Err(EndGroup))
            && (wireType != 4 && number == 0 ==> r == Err(IllegalTag))
            && (wireType != 4 && number in {1, 2} && wireType != 2 ==> r == Err(WrongWireType))
  {
    KeyReads(number, wireType, rest);
    hide Varint, ReadTag, ReadVarint, ReadPayload, SkipUnknown;
  }

  lemma KeyReads(number: nat, wireType: nat, rest: bytes)
    requires number <= 9 && wireType < 8
    ensures ReadTag(Varint(8 * number + wireType) + rest)
         == if wireType == 4 then Err(EndGroup)
            else if number == 0 then Err(IllegalTag)
            else Ok((Tag(number, wireType), rest))
  {
    TagOf(8 * number + wireType, rest);
    KeyParts(number, wireType);
    hide Varint, ReadTag, ToInt32;
  }

  lemma TagOf(wire: uint64, rest: bytes)
    ensures ReadTag(Varint(wire) + rest)
         == if wire % 8 == 4 then Err(EndGroup)
            else if ToInt32(wire / 8) <= 0 then Err(IllegalTag)
            else Ok((Tag(ToInt32(wire / 8), wire % 8), rest))
  {
    hide Varint, ReadVarint, ToInt32;
    VarintRoundTrip(wire, rest);
  }

  lemma KeyParts(number: nat, wireType: nat)
    requires number <= 9 && wireType < 8
    ensures (8 * number + wireType) % 8 == wireType && ToInt32((8 * number + wireType) / 8) == number
  {
  }

  /** Data that ends inside a varint is refused, and so is a varint of more than ten bytes. */
  lemma {:induction false} VarintRefuses(data: bytes, index: nat)
    requires index <= 10 && forall i :: 0 <= i < |data| && i < 10 - index ==> data[i] >= 128
    ensures ReadUnreduced(data, index) == Err(if |data| < 10 - index then UnexpectedEOF else IntOverflow)
    decreases 10 - index
  {
    if index < 10 && data != [] {
      VarintRefuses(data[1..], index + 1);
    }
  }

  /** A length that is negative as an int is refused; so is one that reaches past the data, with the error of an
      index that overflows an int if it does. */
  lemma PayloadRefuses(length: uint64, rest: bytes, total: nat)
    requires |rest| <= total
    ensures var r := ReadPayload(Varint(length) + rest, total);
            && (length > MAX_INT64 ==> r == Err(InvalidLength))
            && (|rest| < length <= MAX_INT64 ==>
                  r == Err(if total - |rest| + length > MAX_INT64 then InvalidLength else UnexpectedEOF))
            && (length <= |rest| && length <= MAX_INT64 ==> r == Ok((rest[..length], rest[length..])))
  {
    hide Varint, ReadVarint;
    VarintRoundTrip(length, rest);
  }

  /** Skipping refuses the wire types 6 and 7, and the end of a group that has not begun; a fixed or a
      length-delimited value that is cut off is noticed at its end, inside a group at once. */
  lemma SkipRefuses(number: nat, wireType: nat, rest: bytes, at: nat, depth: nat)
    requires number <= 9 && wireType < 8
    ensures var r := Skip(Varint(8 * number + wireType) + rest, at, depth);
            && (wireType == 6 || wireType == 7 ==> r == Err(IllegalWireType))
            && (wireType == 4 && depth == 0 ==> r == Err(UnexpectedEndOfGroup))
            && (var count := if wireType == 1 then 8 else 4;
                wireType in {1, 5} && |rest| < count && at + 12 <= MAX_INT64 ==>
                  r == if depth == 0 then Ok(at + 1 + count) else Err(UnexpectedEOF))
  {
    hide Varint, ReadVarint, SkipMore;
    VarintRoundTrip(8 * number + wireType, rest);
    KeyParts(number, wireType);
    OneByteKey(number, wireType);
    hide ToInt32;
    assert Skip(Varint(8 * number + wireType) + rest, at, depth) == SkipValue(wireType, rest, at + 1, depth);
  }

  lemma OneByteKey(number: nat, wireType: nat)
    requires number <= 9 && wireType < 8
    ensures Varint(8 * number + wireType) == [8 * number + wireType]
  {
  }
}
