/** What the generated code reads from the bytes of a message: the meaning of its reading loops. Every
    function takes what is left of a slice of `total` bytes. */
module ProtoParsing {
  import opened MachineTypes
  import opened OracleTypes
  import opened ProtoWire

  // ---------- single fields ----------

  function VarintValue(tag: Tag, rest: bytes): (r: Result<(uint64, bytes), Error>)
    ensures r.Ok? ==> |r.value.1| < |rest|
  {
    if tag.wireType != 0 then Err(WrongWireType) else ReadVarint(rest)
  }

  function PayloadValue(tag: Tag, rest: bytes, total: nat): (r: Result<(bytes, bytes), Error>)
    ensures r.Ok? ==> |r.value.1| < |rest|
  {
    if tag.wireType != 2 then Err(WrongWireType) else ReadPayload(rest, total)
  }

  /** One field of a raw report, merged into the message; and what follows it. */
  function RawReportNext(m: RawReport, data: bytes, total: nat): (r: Result<(RawReport, bytes), Error>)
    ensures r.Ok? ==> |r.value.1| < |data|
  {
    match ReadTag(data)
    case Err(e) => Err(e)
    case Ok((tag, rest)) =>
      match tag.fieldNum
      case 1 =>
        (match VarintValue(tag, rest)
         case Err(e) => Err(e)
         case Ok((v, after)) => Ok((m.(externalID := ToInt64(v)), after)))
      case 2 =>
        (match VarintValue(tag, rest)
         case Err(e) => Err(e)
         case Ok((v, after)) => Ok((m.(exitCode := v % TWO_TO_32), after)))
      case 3 =>
        (match PayloadValue(tag, rest, total)
         case Err(e) => Err(e)
         case Ok((b, after)) => Ok((m.(data := b), after)))
      case _ => SkipUnknown(m, data, total)
  }

  /** An unknown field leaves the message as it is. */
  function SkipUnknown<M>(m: M, data: bytes, total: nat): (r: Result<(M, bytes), Error>)
    ensures r.Ok? ==> |r.value.1| < |data|
  {
    match Skip(data, 0, 0)
    case Err(e) => Err(e)
    case Ok(skippy) =>
      if skippy > |data| then Err(PastEnd(total - |data| + skippy)) else Ok((m, data[skippy..]))
  }

  function ParseRawReport(m: RawReport, data: bytes, total: nat): Result<RawReport, Error>
    decreases |data|
  {
    if data == [] then Ok(m)
    else
      match RawReportNext(m, data, total)
      case Err(e) => Err(e)
      case Ok((next, rest)) => ParseRawReport(next, rest, total)
  }

  function IBCInfoNext(m: IBCInfo, data: bytes, total: nat): (r: Result<(IBCInfo, bytes), Error>)
    ensures r.Ok? ==> |r.value.1| < |data|
  {
    match ReadTag(data)
    case Err(e) => Err(e)
    case Ok((tag, rest)) =>
      match tag.fieldNum
      case 1 =>
        (match PayloadValue(tag, rest, total)
         case Err(e) => Err(e)
         case Ok((b, after)) => Ok((m.(sourcePort := b), after)))
      case 2 =>
        (match PayloadValue(tag, rest, total)
         case Err(e) => Err(e)
         case Ok((b, after)) => Ok((m.(sourceChannel := b), after)))
      case _ => SkipUnknown(m, data, total)
  }

  function ParseIBCInfo(m: IBCInfo, data: bytes, total: nat): Result<IBCInfo, Error>
    decreases |data|
  {
    if data == [] then Ok(m)
    else
      match IBCInfoNext(m, data, total)
      case Err(e) => Err(e)
      case Ok((next, rest)) => ParseIBCInfo(next, rest, total)
  }

  function ReportNext(m: Report, data: bytes, total: nat): (r: Result<(Report, bytes), Error>)
    ensures r.Ok? ==> |r.value.1| < |data|
  {
    match ReadTag(data)
    case Err(e) => Err(e)
    case Ok((tag, rest)) =>
      match tag.fieldNum
      case 1 =>
        (match PayloadValue(tag, rest, total)
         case Err(e) => Err(e)
         case Ok((b, after)) => Ok((m.(validator := Address(b)), after)))
      case 2 =>
        (match VarintValue(tag, rest)
         case Err(e) => Err(e)
         case Ok((v, after)) => Ok((m.(inBeforeResolve := v != 0), after)))
      case 3 =>
        (match PayloadValue(tag, rest, total)
         case Err(e) => Err(e)
         case Ok((b, after)) =>
           match ParseRawReport(EMPTY_RAW_REPORT, b, |b|)
           case Err(e) => Err(e)
           case Ok(raw) => Ok((m.(rawReports := m.rawReports + [raw]), after)))
      case _ => SkipUnknown(m, data, total)
  }

  function ParseReport(m: Report, data: bytes, total: nat): Result<Report, Error>
    decreases |data|
  {
    if data == [] then Ok(m)
    else
      match ReportNext(m, data, total)
      case Err(e) => Err(e)
      case Ok((next, rest)) => ParseReport(next, rest, total)
  }

  /** The varints of a packed field: they are read as long as one begins within the `length` bytes,
      so that the last may end behind them. */
  function ReadPacked(data: bytes, length: int): (r: Result<(seq<ExternalID>, bytes), Error>)
    ensures r.Ok? ==> |r.value.1| <= |data|
    decreases |data|
  {
    if length <= 0 then Ok(([], data))
    else
      match ReadVarint(data)
      case Err(e) => Err(e)
      case Ok((v, rest)) =>
        match ReadPacked(rest, length - (|data| - |rest|))
        case Err(e) => Err(e)
        case Ok((ids, after)) => Ok(([ToInt64(v)] + ids, after))
  }

  /** Field 9 of a request, packed or not. */
  function RawRequestIDsValue(tag: Tag, rest: bytes, total: nat): (r: Result<(seq<ExternalID>, bytes), Error>)
    ensures r.Ok? ==> |r.value.1| < |rest|
  {
    if tag.wireType == 0 then
      match ReadVarint(rest)
      case Err(e) => Err(e)
      case Ok((v, after)) => Ok(([ToInt64(v)], after))
    else if tag.wireType == 2 then
      match ReadLength(rest, total)
      case Err(e) => Err(e)
      case Ok((length, packed)) => ReadPacked(packed, length)
    else Err(WrongWireType)
  }

  function IBCInfoValue(m: Option<IBCInfo>, tag: Tag, rest: bytes, total: nat): (r: Result<(IBCInfo, bytes), Error>)
    ensures r.Ok? ==> |r.value.1| < |rest|
  {
    match PayloadValue(tag, rest, total)
    case Err(e) => Err(e)
    case Ok((b, after)) =>
      match ParseIBCInfo(if m.Some? then m.value else EMPTY_IBC_INFO, b, |b|)
      case Err(e) => Err(e)
      case Ok(info) => Ok((info, after))
  }

  function RequestNext(m: Request, data: bytes, total: nat): (r: Result<(Request, bytes), Error>)
    ensures r.Ok? ==> |r.value.1| < |data|
  {
    match ReadTag(data)
    case Err(e) => Err(e)
    case Ok((tag, rest)) => RequestValue(m, data, tag, rest, total)
  }

  function RequestValue(m: Request, data: bytes, tag: Tag, rest: bytes, total: nat): (r: Result<(Request, bytes), Error>)
    requires |rest| < |data|
    ensures r.Ok? ==> |r.value.1| < |data|
  {
    match tag.fieldNum
    case 1 =>
      (match VarintValue(tag, rest)
       case Err(e) => Err(e)
       case Ok((v, after)) => Ok((m.(oracleScriptID := ToInt64(v)), after)))
    case 2 =>
      (match PayloadValue(tag, rest, total)
       case Err(e) => Err(e)
       case Ok((b, after)) => Ok((m.(calldata := b), after)))
    case 3 =>
      (match PayloadValue(tag, rest, total)
       case Err(e) => Err(e)
       case Ok((b, after)) => Ok((m.(requestedValidators := m.requestedValidators + [Address(b)]), after)))
    case 4 =>
      (match VarintValue(tag, rest)
       case Err(e) => Err(e)
       case Ok((v, after)) => Ok((m.(minCount := v), after)))
    case 5 =>
      (match VarintValue(tag, rest)
       case Err(e) => Err(e)
       case Ok((v, after)) => Ok((m.(requestHeight := ToInt64(v)), after)))
    case 6 =>
      (match VarintValue(tag, rest)
       case Err(e) => Err(e)
       case Ok((v, after)) => Ok((m.(requestTime := ToInt64(v)), after)))
    case 7 =>
      (match PayloadValue(tag, rest, total)
       case Err(e) => Err(e)
       case Ok((b, after)) => Ok((m.(clientID := b), after)))
    case 8 =>
      (match IBCInfoValue(m.ibcInfo, tag, rest, total)
       case Err(e) => Err(e)
       case Ok((info, after)) => Ok((m.(ibcInfo := Some(info)), after)))
    case 9 =>
      (match RawRequestIDsValue(tag, rest, total)
       case Err(e) => Err(e)
       case Ok((ids, after)) => Ok((m.(rawRequestIDs := m.rawRequestIDs + ids), after)))
    case _ => SkipUnknown(m, data, total)
  }

  function ParseRequest(m: Request, data: bytes, total: nat): Result<Request, Error>
    decreases |data|
  {
    if data == [] then Ok(m)
    else
      match RequestNext(m, data, total)
      case Err(e) => Err(e)
      case Ok((next, rest)) => ParseRequest(next, rest, total)
  }

  /** The zero values a Go variable of each type starts from. */
  const EMPTY_RAW_REPORT := RawReport(0, 0, [])
  const EMPTY_IBC_INFO := IBCInfo([], [])
  const EMPTY_REPORT := Report(Address([]), false, [])
  const EMPTY_REQUEST := Request(0, [], [], 0, 0, 0, [], None, [])
}
