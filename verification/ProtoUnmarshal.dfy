/** The reading loops: an index that advances over the data while the message fills up. Each is
    proved to compute the parse of the data. */
module ProtoUnmarshal {
  import opened MachineTypes
  import opened OracleTypes
  import opened ProtoWire
  import opened ProtoParsing

  /** What a reader that stands at an index returns for a read of the rest: the value, and the
      index behind it. */
  ghost predicate At<T(!new)>(data: bytes, spec: Result<(T, bytes), Error>, r: Result<(T, nat), Error>) {
    match spec
    case Err(e) => r == Err(e)
    case Ok((v, rest)) => r.Ok? && r.value.0 == v && r.value.1 <= |data| && rest == data[r.value.1..]
  }

  method ReadTagAt(data: bytes, start: nat) returns (r: Result<(Tag, nat), Error>)
    requires start <= |data|
    ensures At(data, ReadTag(data[start..]), r)
    ensures r.Ok? ==> start < r.value.1 <= |data|
  {
    hide ReadVarint;
    var wire := ReadVarintLoop(data, start);
    if wire.Err? {
      return Err(wire.error);
    }
    var fieldNum, wireType := ToInt32(wire.value.0 / 8), wire.value.0 % 8;
    if wireType == 4 {
      return Err(EndGroup);
    }
    if fieldNum <= 0 {
      return Err(IllegalTag);
    }
    r := Ok((Tag(fieldNum, wireType), wire.value.1));
  }

  /** A length and the index behind it; what it measures lies within the data. */
  method ReadLengthAt(data: bytes, start: nat) returns (r: Result<(nat, nat), Error>)
    requires start <= |data| <= MAX_INT64
    ensures At(data, ReadLength(data[start..], |data|), r)
    ensures r.Ok? ==> start < r.value.1 && r.value.1 + r.value.0 <= |data|
  {
    hide ReadVarint;
    var length := ReadVarintLoop(data, start);
    if length.Err? {
      return Err(length.error);
    }
    var (byteLen, iNdEx) := length.value;
    if ToInt64(byteLen) < 0 {
      return Err(InvalidLength);
    }
    var postIndex := iNdEx + byteLen;
    if postIndex > MAX_INT64 { // it would be negative
      return Err(InvalidLength);
    }
    if postIndex > |data| {
      return Err(UnexpectedEOF);
    }
    r := Ok((byteLen, iNdEx));
  }

  method ReadVarintValue(data: bytes, start: nat, tag: Tag) returns (r: Result<(uint64, nat), Error>)
    requires start <= |data|
    ensures At(data, VarintValue(tag, data[start..]), r)
    ensures r.Ok? ==> start < r.value.1
  {
    hide ReadVarint;
    if tag.wireType != 0 {
      return Err(WrongWireType);
    }
    r := ReadVarintLoop(data, start);
  }

  method ReadPayloadValue(data: bytes, start: nat, tag: Tag) returns (r: Result<(bytes, nat), Error>)
    requires start <= |data| <= MAX_INT64
    ensures At(data, PayloadValue(tag, data[start..], |data|), r)
    ensures r.Ok? ==> start < r.value.1 && |r.value.0| <= |data|
  {
    hide ReadLength;
    if tag.wireType != 2 {
      return Err(WrongWireType);
    }
    var length := ReadLengthAt(data, start);
    if length.Err? {
      return Err(length.error);
    }
    var (byteLen, iNdEx) := length.value;
    var postIndex := iNdEx + byteLen;
    assert data[iNdEx..][..byteLen] == data[iNdEx..postIndex];
    assert data[iNdEx..][byteLen..] == data[postIndex..];
    r := Ok((data[iNdEx..postIndex], postIndex));
  }

  /** skipTypes, on the slice that begins with the field. */
  method SkipTypes(dAtA: bytes) returns (r: Result<nat, Error>)
    requires 0 < |dAtA| <= MAX_INT64
    ensures r == Skip(dAtA, 0, 0)
  {
    hide ReadVarint, ReadUnreduced, Skip, SkipMore, SkipBytes;
    var iNdEx, depth := 0, 0;
    assert dAtA[0..] == dAtA;
    ghost var whole := Skip(dAtA, 0, 0);
    while iNdEx < |dAtA|
      invariant iNdEx <= |dAtA| ==> whole == Skip(dAtA[iNdEx..], iNdEx, depth)
      invariant iNdEx > |dAtA| ==> whole == Err(UnexpectedEOF)
      decreases |dAtA| - iNdEx
    {
      var wire := ReadVarintLoop(dAtA, iNdEx);
      SkipUnfolds(dAtA[iNdEx..], iNdEx, depth);
      if wire.Err? {
        return Err(wire.error);
      }
      iNdEx := wire.value.1;
      var wireType := wire.value.0 % 8;
      assert whole == SkipValue(wireType, dAtA[iNdEx..], iNdEx, depth);
      if wireType == 0 {
        var v := ReadVarintLoop(dAtA, iNdEx);
        VarintSkips(dAtA[iNdEx..]);
        if v.Err? {
          return Err(v.error);
        }
        iNdEx := v.value.1;
      } else if wireType == 1 {
        SkipBytesUnfolds(dAtA, iNdEx, 8, depth);
        iNdEx := iNdEx + 8;
      } else if wireType == 2 {
        var length := ReadVarintLoop(dAtA, iNdEx);
        if length.Err? {
          return Err(length.error);
        }
        if ToInt64(length.value.0) < 0 {
          return Err(InvalidLength);
        }
        iNdEx := length.value.1;
        SkipBytesUnfolds(dAtA, iNdEx, length.value.0, depth);
        iNdEx := iNdEx + length.value.0;
      } else if wireType == 3 {
        depth := depth + 1;
      } else if wireType == 4 {
        if depth == 0 {
          return Err(UnexpectedEndOfGroup);
        }
        depth := depth - 1;
      } else if wireType == 5 {
        SkipBytesUnfolds(dAtA, iNdEx, 4, depth);
        iNdEx := iNdEx + 4;
      } else {
        return Err(IllegalWireType);
      }
      assert whole == IndexReached(dAtA, iNdEx, depth);
      if iNdEx > MAX_INT64 { // it would be negative
        return Err(InvalidLength);
      }
      SkipMoreUnfolds(dAtA, iNdEx, depth);
      if depth == 0 {
        return Ok(iNdEx);
      }
    }
    NothingToSkip(depth, iNdEx);
    assert iNdEx == |dAtA| ==> dAtA[iNdEx..] == [];
    r := Err(UnexpectedEOF);
  }

  /** What is left to do when a value has been passed over and the index stands behind it. */
  function IndexReached(data: bytes, index: nat, depth: nat): Result<nat, Error> {
    if index <= |data| then SkipMore(data[index..], index, depth)
    else if index > MAX_INT64 then Err(InvalidLength)
    else if depth == 0 then Ok(index)
    else Err(UnexpectedEOF)
  }

  lemma SkipBytesUnfolds(data: bytes, at: nat, count: nat, depth: nat)
    requires at <= |data|
    ensures SkipBytes(data[at..], at, count, depth) == IndexReached(data, at + count, depth)
  {
    hide SkipMore;
    if at + count <= |data| {
      assert data[at..][count..] == data[at + count..];
    }
  }

  lemma SkipUnfolds(data: bytes, at: nat, depth: nat)
    ensures var wire := ReadVarint(data);
            Skip(data, at, depth) ==
            if wire.Err? then Err(wire.error)
            else SkipValue(wire.value.0 % 8, wire.value.1, at + |data| - |wire.value.1|, depth)
  {
  }

  lemma SkipMoreUnfolds(data: bytes, index: nat, depth: nat)
    requires index <= MAX_INT64
    ensures depth == 0 ==> IndexReached(data, index, depth) == Ok(index)
    ensures depth > 0 ==>
              IndexReached(data, index, depth) == if index <= |data| then Skip(data[index..], index, depth) else Err(UnexpectedEOF)
  {
  }

  lemma NothingToSkip(depth: nat, at: nat)
    ensures Skip([], at, depth) == Err(UnexpectedEOF)
  {
  }

  lemma VarintSkips(data: bytes)
    ensures ReadUnreduced(data, 0).Ok? <==> ReadVarint(data).Ok?
    ensures ReadVarint(data).Ok? ==> ReadVarint(data).value.1 == ReadUnreduced(data, 0).value.1
    ensures ReadVarint(data).Err? ==> ReadVarint(data).error == ReadUnreduced(data, 0).error
  {
  }

  /** The default case of every reading loop: back to the tag, and over the field. */
  method SkipField<M>(m: M, data: bytes, preIndex: nat) returns (r: Result<nat, Error>)
    requires preIndex < |data| <= MAX_INT64
    ensures match SkipUnknown(m, data[preIndex..], |data|)
            case Err(e) => r == Err(e)
            case Ok((same, rest)) => same == m && r.Ok? && preIndex < r.value <= |data| && rest == data[r.value..]
  {
    hide Skip;
    var skippy := SkipTypes(data[preIndex..]);
    if skippy.Err? {
      return Err(skippy.error);
    }
    var iNdEx := preIndex + skippy.value;
    if iNdEx > MAX_INT64 { // it would be negative
      return Err(InvalidLength);
    }
    if iNdEx > |data| {
      return Err(UnexpectedEOF);
    }
    assert data[preIndex..][skippy.value..] == data[iNdEx..];
    r := Ok(iNdEx);
  }

  // ---------- Unmarshal ----------

  method UnmarshalRawReport(m0: RawReport, data: bytes) returns (r: Result<RawReport, Error>)
    requires |data| <= MAX_INT64
    ensures r == ParseRawReport(m0, data, |data|)
  {
    hide ReadTag, VarintValue, PayloadValue, SkipUnknown, ToInt64, ParseRawReport;
    var m, iNdEx := m0, 0;
    assert data[0..] == data;
    while iNdEx < |data|
      invariant 0 <= iNdEx <= |data|
      invariant ParseRawReport(m0, data, |data|) == ParseRawReport(m, data[iNdEx..], |data|)
    {
      RawReportUnfoldsOnce(m, data[iNdEx..], |data|);
      var preIndex := iNdEx;
      var tag := ReadTagAt(data, iNdEx);
      if tag.Err? {
        return Err(tag.error);
      }
      iNdEx := tag.value.1;
      match tag.value.0.fieldNum {
        case 1 =>
          var v := ReadVarintValue(data, iNdEx, tag.value.0);
          if v.Err? { return Err(v.error); }
          m, iNdEx := m.(externalID := ToInt64(v.value.0)), v.value.1;
        case 2 =>
          var v := ReadVarintValue(data, iNdEx, tag.value.0);
          if v.Err? { return Err(v.error); }
          m, iNdEx := m.(exitCode := v.value.0 % TWO_TO_32), v.value.1;
        case 3 =>
          var b := ReadPayloadValue(data, iNdEx, tag.value.0);
          if b.Err? { return Err(b.error); }
          m, iNdEx := m.(data := b.value.0), b.value.1;
        case _ =>
          var skipped := SkipField(m, data, preIndex);
          if skipped.Err? { return Err(skipped.error); }
          iNdEx := skipped.value;
      }
    }
    assert data[iNdEx..] == [];
    RawReportUnfoldsOnce(m, [], |data|);
    r := Ok(m);
  }

  lemma RawReportUnfoldsOnce(m: RawReport, data: bytes, total: nat)
    ensures var next := RawReportNext(m, data, total);
            ParseRawReport(m, data, total) ==
            if data == [] then Ok(m)
            else if next.Err? then Err(next.error)
            else ParseRawReport(next.value.0, next.value.1, total)
  {
  }

  method UnmarshalIBCInfo(m0: IBCInfo, data: bytes) returns (r: Result<IBCInfo, Error>)
    requires |data| <= MAX_INT64
    ensures r == ParseIBCInfo(m0, data, |data|)
  {
    hide ReadTag, VarintValue, PayloadValue, SkipUnknown, ParseIBCInfo;
    var m, iNdEx := m0, 0;
    assert data[0..] == data;
    while iNdEx < |data|
      invariant 0 <= iNdEx <= |data|
      invariant ParseIBCInfo(m0, data, |data|) == ParseIBCInfo(m, data[iNdEx..], |data|)
    {
      IBCInfoUnfoldsOnce(m, data[iNdEx..], |data|);
      var preIndex := iNdEx;
      var tag := ReadTagAt(data, iNdEx);
      if tag.Err? {
        return Err(tag.error);
      }
      iNdEx := tag.value.1;
      match tag.value.0.fieldNum {
        case 1 =>
          var b := ReadPayloadValue(data, iNdEx, tag.value.0);
          if b.Err? { return Err(b.error); }
          m, iNdEx := m.(sourcePort := b.value.0), b.value.1;
        case 2 =>
          var b := ReadPayloadValue(data, iNdEx, tag.value.0);
          if b.Err? { return Err(b.error); }
          m, iNdEx := m.(sourceChannel := b.value.0), b.value.1;
        case _ =>
          var skipped := SkipField(m, data, preIndex);
          if skipped.Err? { return Err(skipped.error); }
          iNdEx := skipped.value;
      }
    }
    assert data[iNdEx..] == [];
    IBCInfoUnfoldsOnce(m, [], |data|);
    r := Ok(m);
  }

  lemma IBCInfoUnfoldsOnce(m: IBCInfo, data: bytes, total: nat)
    ensures var next := IBCInfoNext(m, data, total);
            ParseIBCInfo(m, data, total) ==
            if data == [] then Ok(m)
            else if next.Err? then Err(next.error)
            else ParseIBCInfo(next.value.0, next.value.1, total)
  {
  }

  method UnmarshalReport(m0: Report, data: bytes) returns (r: Result<Report, Error>)
    requires |data| <= MAX_INT64
    ensures r == ParseReport(m0, data, |data|)
  {
    hide ReadTag, VarintValue, PayloadValue, SkipUnknown, ParseReport, ParseRawReport;
    var m, iNdEx := m0, 0;
    assert data[0..] == data;
    while iNdEx < |data|
      invariant 0 <= iNdEx <= |data|
      invariant ParseReport(m0, data, |data|) == ParseReport(m, data[iNdEx..], |data|)
    {
      ReportUnfoldsOnce(m, data[iNdEx..], |data|);
      var preIndex := iNdEx;
      var tag := ReadTagAt(data, iNdEx);
      if tag.Err? {
        return Err(tag.error);
      }
      iNdEx := tag.value.1;
      match tag.value.0.fieldNum {
        case 1 =>
          var b := ReadPayloadValue(data, iNdEx, tag.value.0);
          if b.Err? { return Err(b.error); }
          m, iNdEx := m.(validator := Address(b.value.0)), b.value.1;
        case 2 =>
          var v := ReadVarintValue(data, iNdEx, tag.value.0);
          if v.Err? { return Err(v.error); }
          m, iNdEx := m.(inBeforeResolve := v.value.0 != 0), v.value.1;
        case 3 =>
          var b := ReadPayloadValue(data, iNdEx, tag.value.0);
          if b.Err? { return Err(b.error); }
          var raw := UnmarshalRawReport(EMPTY_RAW_REPORT, b.value.0);
          if raw.Err? { return Err(raw.error); }
          m, iNdEx := m.(rawReports := m.rawReports + [raw.value]), b.value.1;
        case _ =>
          var skipped := SkipField(m, data, preIndex);
          if skipped.Err? { return Err(skipped.error); }
          iNdEx := skipped.value;
      }
    }
    assert data[iNdEx..] == [];
    ReportUnfoldsOnce(m, [], |data|);
    r := Ok(m);
  }

  lemma ReportUnfoldsOnce(m: Report, data: bytes, total: nat)
    ensures var next := ReportNext(m, data, total);
            ParseReport(m, data, total) ==
            if data == [] then Ok(m)
            else if next.Err? then Err(next.error)
            else ParseReport(next.value.0, next.value.1, total)
  {
  }

  /** The packed elements, until one begins at or behind the end of the packed bytes. */
  method ReadPackedAt(data: bytes, start: nat, postIndex: nat, ids0: seq<ExternalID>)
    returns (r: Result<(seq<ExternalID>, nat), Error>)
    requires start <= postIndex <= |data|
    ensures At(data, Appended(ids0, ReadPacked(data[start..], postIndex - start)), r)
    ensures r.Ok? ==> start <= r.value.1
  {
    hide ReadVarint, ReadPacked, ToInt64;
    var ids, iNdEx := ids0, start;
    while iNdEx < postIndex
      invariant start <= iNdEx <= |data|
      invariant Appended(ids0, ReadPacked(data[start..], postIndex - start)) == Appended(ids, ReadPacked(data[iNdEx..], postIndex - iNdEx))
      decreases |data| - iNdEx
    {
      PackedUnfolds(ids, data[iNdEx..], postIndex - iNdEx);
      var v := ReadVarintLoop(data, iNdEx);
      if v.Err? {
        return Err(v.error);
      }
      ids, iNdEx := ids + [ToInt64(v.value.0)], v.value.1;
    }
    PackedUnfolds(ids, data[iNdEx..], postIndex - iNdEx);
    r := Ok((ids, iNdEx));
  }

  ghost function Appended(ids: seq<ExternalID>, r: Result<(seq<ExternalID>, bytes), Error>): Result<(seq<ExternalID>, bytes), Error> {
    match r
    case Err(e) => Err(e)
    case Ok((more, rest)) => Ok((ids + more, rest))
  }

  lemma PackedUnfolds(ids: seq<ExternalID>, data: bytes, length: int)
    ensures var v := ReadVarint(data);
            Appended(ids, ReadPacked(data, length)) ==
            if length <= 0 then Ok((ids, data))
            else if v.Err? then Err(v.error)
            else Appended(ids + [ToInt64(v.value.0)], ReadPacked(v.value.1, length - (|data| - |v.value.1|)))
  {
    hide ReadVarint, ToInt64;
    assert ids + [] == ids;
    var v := ReadVarint(data);
    if length > 0 && v.Ok? {
      var more := ReadPacked(v.value.1, length - (|data| - |v.value.1|));
      assert more.Ok? ==> ids + ([ToInt64(v.value.0)] + more.value.0) == ids + [ToInt64(v.value.0)] + more.value.0;
    }
  }

  /** Field 9, packed or not, appended to the IDs read before. */
  method ReadRawRequestIDs(data: bytes, start: nat, tag: Tag, ids: seq<ExternalID>)
    returns (r: Result<(seq<ExternalID>, nat), Error>)
    requires start <= |data| <= MAX_INT64
    ensures At(data, Appended(ids, RawRequestIDsValue(tag, data[start..], |data|)), r)
    ensures r.Ok? ==> start < r.value.1
  {
    hide ReadVarint, ReadPacked, ReadLength, ToInt64;
    if tag.wireType == 0 {
      var v := ReadVarintLoop(data, start);
      if v.Err? {
        return Err(v.error);
      }
      r := Ok((ids + [ToInt64(v.value.0)], v.value.1));
    } else if tag.wireType == 2 {
      var length := ReadLengthAt(data, start);
      if length.Err? {
        return Err(length.error);
      }
      r := ReadPackedAt(data, length.value.1, length.value.1 + length.value.0, ids);
    } else {
      r := Err(WrongWireType);
    }
  }

  /** The switch over the field number. */
  method ReadRequestField(m: Request, data: bytes, preIndex: nat, iNdEx: nat, tag: Tag) returns (r: Result<(Request, nat), Error>)
    requires preIndex < iNdEx <= |data| <= MAX_INT64
    ensures At(data, RequestValue(m, data[preIndex..], tag, data[iNdEx..], |data|), r)
    ensures r.Ok? ==> preIndex < r.value.1
  {
    hide VarintValue, PayloadValue, RawRequestIDsValue, SkipUnknown, ParseIBCInfo, ToInt64;
    match tag.fieldNum {
      case 1 =>
        var v := ReadVarintValue(data, iNdEx, tag);
        if v.Err? { return Err(v.error); }
        r := Ok((m.(oracleScriptID := ToInt64(v.value.0)), v.value.1));
      case 2 =>
        var b := ReadPayloadValue(data, iNdEx, tag);
        if b.Err? { return Err(b.error); }
        r := Ok((m.(calldata := b.value.0), b.value.1));
      case 3 =>
        var b := ReadPayloadValue(data, iNdEx, tag);
        if b.Err? { return Err(b.error); }
        r := Ok((m.(requestedValidators := m.requestedValidators + [Address(b.value.0)]), b.value.1));
      case 4 =>
        var v := ReadVarintValue(data, iNdEx, tag);
        if v.Err? { return Err(v.error); }
        r := Ok((m.(minCount := v.value.0), v.value.1));
      case 5 =>
        var v := ReadVarintValue(data, iNdEx, tag);
        if v.Err? { return Err(v.error); }
        r := Ok((m.(requestHeight := ToInt64(v.value.0)), v.value.1));
      case 6 =>
        var v := ReadVarintValue(data, iNdEx, tag);
        if v.Err? { return Err(v.error); }
        r := Ok((m.(requestTime := ToInt64(v.value.0)), v.value.1));
      case 7 =>
        var b := ReadPayloadValue(data, iNdEx, tag);
        if b.Err? { return Err(b.error); }
        r := Ok((m.(clientID := b.value.0), b.value.1));
      case 8 =>
        var b := ReadPayloadValue(data, iNdEx, tag);
        if b.Err? { return Err(b.error); }
        var info := UnmarshalIBCInfo(if m.ibcInfo.Some? then m.ibcInfo.value else EMPTY_IBC_INFO, b.value.0);
        if info.Err? { return Err(info.error); }
        r := Ok((m.(ibcInfo := Some(info.value)), b.value.1));
      case 9 =>
        var ids := ReadRawRequestIDs(data, iNdEx, tag, m.rawRequestIDs);
        if ids.Err? { return Err(ids.error); }
        r := Ok((m.(rawRequestIDs := ids.value.0), ids.value.1));
      case _ =>
        var skipped := SkipField(m, data, preIndex);
        if skipped.Err? { return Err(skipped.error); }
        r := Ok((m, skipped.value));
    }
  }

  method UnmarshalRequest(m0: Request, data: bytes) returns (r: Result<Request, Error>)
    requires |data| <= MAX_INT64
    ensures r == ParseRequest(m0, data, |data|)
  {
    hide ReadTag, RequestValue, ParseRequest;
    var m, iNdEx := m0, 0;
    assert data[0..] == data;
    while iNdEx < |data|
      invariant 0 <= iNdEx <= |data|
      invariant ParseRequest(m0, data, |data|) == ParseRequest(m, data[iNdEx..], |data|)
    {
      RequestUnfoldsOnce(m, data[iNdEx..], |data|);
      var preIndex := iNdEx;
      var tag := ReadTagAt(data, iNdEx);
      if tag.Err? {
        return Err(tag.error);
      }
      iNdEx := tag.value.1;
      var field := ReadRequestField(m, data, preIndex, iNdEx, tag.value.0);
      if field.Err? {
        return Err(field.error);
      }
      m, iNdEx := field.value.0, field.value.1;
    }
    assert data[iNdEx..] == [];
    RequestUnfoldsOnce(m, [], |data|);
    r := Ok(m);
  }

  lemma RequestUnfoldsOnce(m: Request, data: bytes, total: nat)
    ensures var next := RequestNext(m, data, total);
            ParseRequest(m, data, total) ==
            if data == [] then Ok(m)
            else if next.Err? then Err(next.error)
            else ParseRequest(next.value.0, next.value.1, total)
  {
  }
}
