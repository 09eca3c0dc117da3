/** Unmarshalling undoes marshalling, for every raw report, report and request. */
module ProtoRoundTrip {
  import opened MachineTypes
  import opened OracleTypes
  import opened ProtoWire
  import opened ProtoMarshal
  import opened ProtoParsing

  // ---------- single fields ----------

  lemma TwosComplementRoundTrip(x: int64)
    ensures ToInt64(ToUint64(x)) == x
    ensures ToUint64(x) == 0 <==> x == 0
  {
  }

  lemma VarintFieldReads(tag: byte, v: uint64, rest: bytes)
    requires 8 <= tag < 128 && tag % 8 == 0 && v != 0
    ensures ReadTag(VarintField(tag, v) + rest) == Ok((Tag(tag / 8, 0), Varint(v) + rest))
    ensures VarintValue(Tag(tag / 8, 0), Varint(v) + rest) == Ok((v, rest))
  {
    hide Varint, ReadTag, ReadVarint;
    TagRoundTrip(tag, Varint(v) + rest);
    assert VarintField(tag, v) + rest == [tag] + (Varint(v) + rest);
    VarintRoundTrip(v, rest);
  }

  lemma LengthFieldReads(tag: byte, b: bytes, rest: bytes, total: nat)
    requires 8 <= tag < 128 && tag % 8 == 2 && |b| <= MAX_INT64
    ensures ReadTag(LengthField(tag, b) + rest) == Ok((Tag(tag / 8, 2), Varint(|b|) + b + rest))
    ensures PayloadValue(Tag(tag / 8, 2), Varint(|b|) + b + rest, total) == Ok((b, rest))
  {
    hide Varint, ReadTag, ReadPayload;
    TagRoundTrip(tag, Varint(|b|) + b + rest);
    Regroup([tag], Varint(|b|), b, rest);
    PayloadRoundTrip(b, rest, total);
  }

  lemma Regroup(a: bytes, b: bytes, c: bytes, d: bytes)
    ensures a + b + c + d == a + (b + c + d)
  {
  }

  // ---------- raw reports ----------

  /** The message before field `n` is read, when reading starts from `m0`: a field that was written replaces
      the one that is there. */
  function RawReportBefore(m0: RawReport, m: RawReport, n: nat): RawReport {
    RawReport(
      if n > 1 && m.externalID != 0 then m.externalID else m0.externalID,
      if n > 2 && m.exitCode != 0 then m.exitCode else m0.exitCode,
      if n > 3 && m.data != [] then m.data else m0.data)
  }

  lemma RawReportFieldReads(m0: RawReport, m: RawReport, n: nat, rest: bytes, total: nat)
    requires 1 <= n <= 3 && RawReportField(m, n) != [] && |m.data| <= MAX_INT64
    ensures RawReportNext(RawReportBefore(m0, m, n), RawReportField(m, n) + rest, total)
         == Ok((RawReportBefore(m0, m, n + 1), rest))
  {
    hide ReadTag, VarintValue, PayloadValue, ToInt64, ToUint64, LengthField, SkipUnknown;
    TwosComplementRoundTrip(m.externalID);
    if n == 1 {
      VarintFieldReads(0x8, ToUint64(m.externalID), rest);
    } else if n == 2 {
      VarintFieldReads(0x10, m.exitCode, rest);
    } else {
      LengthFieldReads(0x1a, m.data, rest, total);
    }
  }

  lemma RawReportEmptyField(m0: RawReport, m: RawReport, n: nat)
    requires 1 <= n <= 3 && RawReportField(m, n) == []
    ensures RawReportBefore(m0, m, n) == RawReportBefore(m0, m, n + 1)
  {
    TwosComplementRoundTrip(m.externalID);
  }

  lemma {:induction false} RawReportReads(m0: RawReport, m: RawReport, n: nat, total: nat)
    requires 1 <= n <= 4 && |m.data| <= MAX_INT64
    ensures ParseRawReport(RawReportBefore(m0, m, n), RawReportWire(m, n), total) == Ok(RawReportBefore(m0, m, 4))
    decreases 4 - n
  {
    hide RawReportField, RawReportNext, RawReportBefore;
    if n <= 3 {
      RawReportReads(m0, m, n + 1, total);
      var field, rest := RawReportField(m, n), RawReportWire(m, n + 1);
      assert RawReportWire(m, n) == field + rest;
      if field == [] {
        RawReportEmptyField(m0, m, n);
        assert [] + rest == rest;
      } else {
        RawReportFieldReads(m0, m, n, rest, total);
      }
    }
  }

  /** Reading into a message that already has contents merges: what is written replaces, what is not stays. */
  lemma {:induction false} RawReportsMerge(m0: RawReport, m: RawReport)
    requires |RawReportWire(m, 1)| <= MAX_INT64
    ensures ParseRawReport(m0, RawReportWire(m, 1), |RawReportWire(m, 1)|)
         == Ok(RawReport(if m.externalID != 0 then m.externalID else m0.externalID,
                         if m.exitCode != 0 then m.exitCode else m0.exitCode,
                         if m.data != [] then m.data else m0.data))
  {
    RawReportUnfolds(m);
    RawReportReads(m0, m, 1, |RawReportWire(m, 1)|);
  }

  lemma {:induction false} RawReportRoundTrip(m: RawReport)
    requires |RawReportWire(m, 1)| <= MAX_INT64
    ensures ParseRawReport(EMPTY_RAW_REPORT, RawReportWire(m, 1), |RawReportWire(m, 1)|) == Ok(m)
  {
    hide RawReportWire, ParseRawReport;
    RawReportsMerge(EMPTY_RAW_REPORT, m);
  }

  // ---------- IBC information ----------

  function IBCInfoBefore(m0: IBCInfo, m: IBCInfo, n: nat): IBCInfo {
    IBCInfo(
      if n > 1 && m.sourcePort != [] then m.sourcePort else m0.sourcePort,
      if n > 2 && m.sourceChannel != [] then m.sourceChannel else m0.sourceChannel)
  }

  lemma IBCInfoFieldReads(m0: IBCInfo, m: IBCInfo, n: nat, rest: bytes, total: nat)
    requires 1 <= n <= 2 && IBCInfoField(m, n) != [] && |m.sourcePort| <= MAX_INT64 && |m.sourceChannel| <= MAX_INT64
    ensures IBCInfoNext(IBCInfoBefore(m0, m, n), IBCInfoField(m, n) + rest, total) == Ok((IBCInfoBefore(m0, m, n + 1), rest))
  {
    hide ReadTag, PayloadValue, LengthField, SkipUnknown;
    if n == 1 {
      LengthFieldReads(0xa, m.sourcePort, rest, total);
    } else {
      LengthFieldReads(0x12, m.sourceChannel, rest, total);
    }
  }

  lemma {:induction false} IBCInfoReads(m0: IBCInfo, m: IBCInfo, n: nat, total: nat)
    requires 1 <= n <= 3 && |m.sourcePort| <= MAX_INT64 && |m.sourceChannel| <= MAX_INT64
    ensures ParseIBCInfo(IBCInfoBefore(m0, m, n), IBCInfoWire(m, n), total) == Ok(IBCInfoBefore(m0, m, 3))
    decreases 3 - n
  {
    hide IBCInfoNext, LengthField;
    if n <= 2 {
      IBCInfoReads(m0, m, n + 1, total);
      BytesFieldSize(0xa, m.sourcePort);
      BytesFieldSize(0x12, m.sourceChannel);
      var field, rest := IBCInfoField(m, n), IBCInfoWire(m, n + 1);
      assert IBCInfoWire(m, n) == field + rest;
      if field == [] {
        assert [] + rest == rest;
      } else {
        IBCInfoFieldReads(m0, m, n, rest, total);
      }
    }
  }

  lemma {:induction false} IBCInfosMerge(m0: IBCInfo, m: IBCInfo)
    requires |IBCInfoWire(m, 1)| <= MAX_INT64
    ensures ParseIBCInfo(m0, IBCInfoWire(m, 1), |IBCInfoWire(m, 1)|)
         == Ok(IBCInfo(if m.sourcePort != [] then m.sourcePort else m0.sourcePort,
                       if m.sourceChannel != [] then m.sourceChannel else m0.sourceChannel))
  {
    IBCInfoUnfolds(m);
    IBCInfoReads(m0, m, 1, |IBCInfoWire(m, 1)|);
  }

  lemma {:induction false} IBCInfoRoundTrip(m: IBCInfo)
    requires |IBCInfoWire(m, 1)| <= MAX_INT64
    ensures ParseIBCInfo(EMPTY_IBC_INFO, IBCInfoWire(m, 1), |IBCInfoWire(m, 1)|) == Ok(m)
  {
    hide IBCInfoWire, ParseIBCInfo;
    IBCInfosMerge(EMPTY_IBC_INFO, m);
  }

  // ---------- reports ----------

  lemma RawReportsFieldReads(m: Report, raw: RawReport, rest: bytes, total: nat)
    requires |RawReportWire(raw, 1)| <= MAX_INT64
    ensures ReportNext(m, LengthField(0x1a, RawReportWire(raw, 1)) + rest, total) == Ok((m.(rawReports := m.rawReports + [raw]), rest))
  {
    hide ReadTag, PayloadValue, VarintValue, LengthField, SkipUnknown, RawReportWire, ParseRawReport;
    LengthFieldReads(0x1a, RawReportWire(raw, 1), rest, total);
    RawReportRoundTrip(raw);
  }

  lemma {:induction false} RawReportsRead(m: Report, list: seq<RawReport>, total: nat)
    requires |RawReportsField(0x1a, list)| <= MAX_INT64
    ensures ParseReport(m, RawReportsField(0x1a, list), total) == Ok(m.(rawReports := m.rawReports + list))
    decreases |list|
  {
    hide ReportNext, RawReportWire;
    if list == [] {
      assert m.rawReports + [] == m.rawReports;
    } else {
      RawReportsFieldReads(m, list[0], RawReportsField(0x1a, list[1..]), total);
      RawReportsRead(m.(rawReports := m.rawReports + [list[0]]), list[1..], total);
      assert m.rawReports + [list[0]] + list[1..] == m.rawReports + list;
    }
  }

  lemma ReportFlagReads(m: Report, rest: bytes, total: nat)
    ensures ReportNext(m, [0x10, 1] + rest, total) == Ok((m.(inBeforeResolve := true), rest))
  {
    hide ReadTag, PayloadValue, VarintValue, SkipUnknown, ParseRawReport;
    VarintFieldReads(0x10, 1, rest);
    assert VarintField(0x10, 1) == [0x10, 1];
  }

  lemma ReportValidatorReads(m0: Report, m: Report, rest: bytes, total: nat)
    requires m.validator.raw != [] && |m.validator.raw| <= MAX_INT64
    ensures ReportNext(m0, ReportField(m, 1) + rest, total) == Ok((m0.(validator := m.validator), rest))
  {
    hide ReadTag, PayloadValue, VarintValue, LengthField, SkipUnknown, ParseRawReport;
    LengthFieldReads(0xa, m.validator.raw, rest, total);
  }

  /** The same for reports: raw reports are appended. */
  lemma {:induction false} ReportsMerge(m0: Report, m: Report)
    requires |ReportWire(m, 1)| <= MAX_INT64
    ensures ParseReport(m0, ReportWire(m, 1), |ReportWire(m, 1)|)
         == Ok(Report(if m.validator.raw != [] then m.validator else m0.validator,
                      m0.inBeforeResolve || m.inBeforeResolve,
                      m0.rawReports + m.rawReports))
  {
    hide ReportNext, RawReportsField, LengthField;
    ReportUnfolds(m);
    var total := |ReportWire(m, 1)|;
    var f2, f3 := ReportField(m, 2), ReportField(m, 3);
    assert [] + f3 == f3 && [] + (f2 + f3) == f2 + f3;
    var m1 := if m.validator.raw != [] then m0.(validator := m.validator) else m0;
    var m2 := m1.(inBeforeResolve := m0.inBeforeResolve || m.inBeforeResolve);
    RawReportsRead(m2, m.rawReports, total);
    assert ParseReport(m2, f3, total) == Ok(m2.(rawReports := m2.rawReports + m.rawReports));
    if m.inBeforeResolve {
      ReportFlagReads(m1, f3, total);
    }
    assert ParseReport(m1, f2 + f3, total) == ParseReport(m2, f3, total);
    BytesFieldSize(0xa, m.validator.raw);
    if m.validator.raw != [] {
      ReportValidatorReads(m0, m, f2 + f3, total);
    }
  }

  lemma {:induction false} ReportRoundTrip(m: Report)
    requires |ReportWire(m, 1)| <= MAX_INT64
    ensures ParseReport(EMPTY_REPORT, ReportWire(m, 1), |ReportWire(m, 1)|) == Ok(m)
  {
    hide ReportWire, ParseReport;
    ReportsMerge(EMPTY_REPORT, m);
    assert [] + m.rawReports == m.rawReports;
    assert m.validator.raw == [] ==> m.validator == Address([]);
  }

  // ---------- requests ----------

  /** The request before field `n` is read, when reading starts from `m0`: single fields that were written
      replace those that are there, repeated ones are appended, and the IBC information is merged. */
  function RequestBefore(m0: Request, m: Request, n: nat): Request {
    Request(
      if n > 1 && m.oracleScriptID != 0 then m.oracleScriptID else m0.oracleScriptID,
      if n > 2 && m.calldata != [] then m.calldata else m0.calldata,
      if n > 3 then m0.requestedValidators + m.requestedValidators else m0.requestedValidators,
      if n > 4 && m.minCount != 0 then m.minCount else m0.minCount,
      if n > 5 && m.requestHeight != 0 then m.requestHeight else m0.requestHeight,
      if n > 6 && m.requestTime != 0 then m.requestTime else m0.requestTime,
      if n > 7 && m.clientID != [] then m.clientID else m0.clientID,
      if n > 8 then MergedInfo(m0.ibcInfo, m.ibcInfo) else m0.ibcInfo,
      if n > 9 then m0.rawRequestIDs + m.rawRequestIDs else m0.rawRequestIDs)
  }

  function MergedInfo(m0: Option<IBCInfo>, m: Option<IBCInfo>): Option<IBCInfo> {
    if m.None? then m0
    else if m0.None? then m
    else Some(IBCInfo(if m.value.sourcePort != [] then m.value.sourcePort else m0.value.sourcePort,
                      if m.value.sourceChannel != [] then m.value.sourceChannel else m0.value.sourceChannel))
  }

  lemma RequestNumberReads(m0: Request, m: Request, n: nat, rest: bytes, total: nat)
    requires n in {1, 4, 5, 6} && RequestField(m, n) != []
    ensures RequestNext(RequestBefore(m0, m, n), RequestField(m, n) + rest, total) == Ok((RequestBefore(m0, m, n + 1), rest))
  {
    hide ReadTag, VarintValue, PayloadValue, IBCInfoValue, RawRequestIDsValue, ToInt64, ToUint64, SkipUnknown;
    if n == 1 {
      TwosComplementRoundTrip(m.oracleScriptID);
      VarintFieldReads(0x8, ToUint64(m.oracleScriptID), rest);
    } else if n == 4 {
      VarintFieldReads(0x20, m.minCount, rest);
    } else if n == 5 {
      TwosComplementRoundTrip(m.requestHeight);
      VarintFieldReads(0x28, ToUint64(m.requestHeight), rest);
    } else {
      TwosComplementRoundTrip(m.requestTime);
      VarintFieldReads(0x30, ToUint64(m.requestTime), rest);
    }
  }

  lemma RequestBytesRead(m0: Request, m: Request, n: nat, rest: bytes, total: nat)
    requires n in {2, 7} && RequestField(m, n) != [] && |RequestField(m, n)| <= MAX_INT64
    ensures RequestNext(RequestBefore(m0, m, n), RequestField(m, n) + rest, total) == Ok((RequestBefore(m0, m, n + 1), rest))
  {
    hide ReadTag, VarintValue, PayloadValue, IBCInfoValue, RawRequestIDsValue, LengthField, SkipUnknown;
    if n == 2 {
      LengthFieldSize(0x12, m.calldata);
      LengthFieldReads(0x12, m.calldata, rest, total);
    } else {
      LengthFieldSize(0x3a, m.clientID);
      LengthFieldReads(0x3a, m.clientID, rest, total);
    }
  }

  lemma RequestInfoReads(m0: Request, m: Request, rest: bytes, total: nat)
    requires m.ibcInfo.Some? && |RequestField(m, 8)| <= MAX_INT64
    ensures RequestNext(RequestBefore(m0, m, 8), RequestField(m, 8) + rest, total) == Ok((RequestBefore(m0, m, 9), rest))
  {
    hide ReadTag, VarintValue, PayloadValue, RawRequestIDsValue, LengthField, SkipUnknown, IBCInfoWire, ParseIBCInfo;
    var payload := IBCInfoWire(m.ibcInfo.value, 1);
    LengthFieldSize(0x42, payload);
    LengthFieldReads(0x42, payload, rest, total);
    IBCInfosMerge(if m0.ibcInfo.Some? then m0.ibcInfo.value else EMPTY_IBC_INFO, m.ibcInfo.value);
  }

  lemma {:induction false} PackedReads(ids: seq<ExternalID>, rest: bytes)
    ensures ReadPacked(Packed(ids) + rest, |Packed(ids)|) == Ok((ids, rest))
  {
    hide Varint, ReadVarint, ToInt64, ToUint64;
    if ids == [] {
      assert [] + rest == rest;
    } else {
      var v, more := Varint(ToUint64(ids[0])), Packed(ids[1..]);
      PackedReads(ids[1..], rest);
      VarintRoundTrip(ToUint64(ids[0]), more + rest);
      TwosComplementRoundTrip(ids[0]);
      assert v + more + rest == v + (more + rest);
      assert [ids[0]] + ids[1..] == ids;
    }
  }

  lemma RequestIDsRead(m0: Request, m: Request, rest: bytes, total: nat)
    requires m.rawRequestIDs != [] && |RequestField(m, 9)| <= MAX_INT64
    ensures RequestNext(RequestBefore(m0, m, 9), RequestField(m, 9) + rest, total) == Ok((RequestBefore(m0, m, 10), rest))
  {
    hide ReadTag, VarintValue, PayloadValue, IBCInfoValue, LengthField, SkipUnknown, Packed, ReadPacked, ReadLength, Varint;
    var packed := Packed(m.rawRequestIDs);
    LengthFieldSize(0x4a, packed);
    LengthFieldReads(0x4a, packed, rest, total);
    LengthRoundTrip(|packed|, packed + rest, total);
    assert Varint(|packed|) + packed + rest == Varint(|packed|) + (packed + rest);
    PackedReads(m.rawRequestIDs, rest);
  }

  lemma RequestAddressReads(m: Request, a: Address, rest: bytes, total: nat)
    requires |a.raw| <= MAX_INT64
    ensures RequestNext(m, LengthField(0x1a, a.raw) + rest, total)
         == Ok((m.(requestedValidators := m.requestedValidators + [a]), rest))
  {
    hide ReadTag, VarintValue, PayloadValue, IBCInfoValue, RawRequestIDsValue, LengthField, SkipUnknown;
    LengthFieldReads(0x1a, a.raw, rest, total);
  }

  lemma {:induction false} RequestAddressesRead(m: Request, list: seq<Address>, rest: bytes, total: nat)
    requires |AddressesField(0x1a, list)| <= MAX_INT64
    ensures ParseRequest(m, AddressesField(0x1a, list) + rest, total)
         == ParseRequest(m.(requestedValidators := m.requestedValidators + list), rest, total)
    decreases |list|
  {
    hide RequestNext, LengthField;
    if list == [] {
      assert m.requestedValidators + [] == m.requestedValidators && [] + rest == rest;
    } else {
      var first, more := LengthField(0x1a, list[0].raw), AddressesField(0x1a, list[1..]);
      LengthFieldSize(0x1a, list[0].raw);
      RequestAddressReads(m, list[0], more + rest, total);
      assert first + more + rest == first + (more + rest);
      RequestAddressesRead(m.(requestedValidators := m.requestedValidators + [list[0]]), list[1..], rest, total);
      assert m.requestedValidators + [list[0]] + list[1..] == m.requestedValidators + list;
    }
  }

  /** Reading field `n` as it is written completes the message by that field. */
  lemma RequestFieldReads(m0: Request, m: Request, n: nat, rest: bytes, total: nat)
    requires 1 <= n <= 9 && |RequestField(m, n)| <= MAX_INT64
    ensures ParseRequest(RequestBefore(m0, m, n), RequestField(m, n) + rest, total) == ParseRequest(RequestBefore(m0, m, n + 1), rest, total)
  {
    hide RequestNext;
    if n == 3 {
      RequestAddressesRead(RequestBefore(m0, m, 3), m.requestedValidators, rest, total);
    } else if RequestField(m, n) == [] {
      RequestEmptyField(m0, m, n);
      assert [] + rest == rest;
    } else if n == 8 {
      RequestInfoReads(m0, m, rest, total);
    } else if n == 9 {
      RequestIDsRead(m0, m, rest, total);
    } else if n in {2, 7} {
      RequestBytesRead(m0, m, n, rest, total);
    } else {
      RequestNumberReads(m0, m, n, rest, total);
    }
  }

  lemma RequestEmptyField(m0: Request, m: Request, n: nat)
    requires 1 <= n <= 9 && n != 3 && RequestField(m, n) == []
    ensures RequestBefore(m0, m, n) == RequestBefore(m0, m, n + 1)
  {
    hide ToUint64, LengthField, Packed;
    TwosComplementRoundTrip(m.oracleScriptID);
    TwosComplementRoundTrip(m.requestHeight);
    TwosComplementRoundTrip(m.requestTime);
    if n == 8 && m.ibcInfo.Some? {
      LengthFieldSize(0x42, IBCInfoWire(m.ibcInfo.value, 1));
    } else if n == 9 {
      LengthFieldSize(0x4a, Packed(m.rawRequestIDs));
    } else if n == 2 {
      LengthFieldSize(0x12, m.calldata);
    } else if n == 7 {
      LengthFieldSize(0x3a, m.clientID);
    }
  }

  lemma {:induction false} RequestReads(m0: Request, m: Request, n: nat, total: nat)
    requires 1 <= n <= 10 && |RequestWire(m, n)| <= MAX_INT64
    ensures ParseRequest(RequestBefore(m0, m, n), RequestWire(m, n), total) == Ok(RequestBefore(m0, m, 10))
    decreases 10 - n
  {
    hide RequestField, RequestNext;
    if n <= 9 {
      assert RequestWire(m, n) == RequestField(m, n) + RequestWire(m, n + 1);
      RequestReads(m0, m, n + 1, total);
      RequestFieldReads(m0, m, n, RequestWire(m, n + 1), total);
    }
  }

  /** Reading a request into one that already has contents: single fields that were written replace, repeated
      ones are appended, nested information is merged, and everything else stays. */
  lemma {:induction false} RequestsMerge(m0: Request, m: Request)
    requires |RequestWire(m, 1)| <= MAX_INT64
    ensures ParseRequest(m0, RequestWire(m, 1), |RequestWire(m, 1)|)
         == Ok(Request(
              if m.oracleScriptID != 0 then m.oracleScriptID else m0.oracleScriptID,
              if m.calldata != [] then m.calldata else m0.calldata,
              m0.requestedValidators + m.requestedValidators,
              if m.minCount != 0 then m.minCount else m0.minCount,
              if m.requestHeight != 0 then m.requestHeight else m0.requestHeight,
              if m.requestTime != 0 then m.requestTime else m0.requestTime,
              if m.clientID != [] then m.clientID else m0.clientID,
              MergedInfo(m0.ibcInfo, m.ibcInfo),
              m0.rawRequestIDs + m.rawRequestIDs))
  {
    hide RequestWire, ParseRequest, MergedInfo;
    RequestReads(m0, m, 1, |RequestWire(m, 1)|);
  }

  lemma {:induction false} RequestRoundTrip(m: Request)
    requires |RequestWire(m, 1)| <= MAX_INT64
    ensures ParseRequest(EMPTY_REQUEST, RequestWire(m, 1), |RequestWire(m, 1)|) == Ok(m)
  {
    hide RequestWire, ParseRequest;
    RequestsMerge(EMPTY_REQUEST, m);
    assert [] + m.requestedValidators == m.requestedValidators && [] + m.rawRequestIDs == m.rawRequestIDs;
  }

  // ---------- older writers and newer writers ----------

  /** The raw request IDs as an unpacked repeated field. */
  function Unpacked(ids: seq<ExternalID>): bytes {
    if ids == [] then [] else [0x48] + Varint(ToUint64(ids[0])) + Unpacked(ids[1..])
  }

  lemma UnpackedIDReads(m: Request, id: ExternalID, rest: bytes, total: nat)
    ensures RequestNext(m, [0x48] + Varint(ToUint64(id)) + rest, total) == Ok((m.(rawRequestIDs := m.rawRequestIDs + [id]), rest))
  {
    hide ReadTag, VarintValue, PayloadValue, IBCInfoValue, SkipUnknown, Varint, ReadVarint, ToInt64, ToUint64;
    var v := ToUint64(id);
    assert [0x48] + Varint(v) + rest == [0x48] + (Varint(v) + rest);
    TagRoundTrip(0x48, Varint(v) + rest);
    VarintRoundTrip(v, rest);
    TwosComplementRoundTrip(id);
  }

  /** A reader takes the unpacked form of the IDs for the same message as the packed form. */
  lemma {:induction false} UnpackedIDsReadAlike(m: Request, ids: seq<ExternalID>, total: nat)
    ensures ParseRequest(m, Unpacked(ids), total) == Ok(m.(rawRequestIDs := m.rawRequestIDs + ids))
    decreases |ids|
  {
    hide RequestNext, Varint, ToUint64;
    if ids == [] {
      assert m.rawRequestIDs + [] == m.rawRequestIDs;
    } else {
      var more := m.(rawRequestIDs := m.rawRequestIDs + [ids[0]]);
      UnpackedIDReads(m, ids[0], Unpacked(ids[1..]), total);
      UnpackedIDsReadAlike(more, ids[1..], total);
      assert m.rawRequestIDs + [ids[0]] + ids[1..] == m.rawRequestIDs + ids;
    }
  }
}
