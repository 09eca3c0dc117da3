/** The records of the oracle module, field by field as in types.pb.go. */
module OracleTypes {
  import opened MachineTypes

  /** Request identifiers are counted from 1 and kept unbounded. */
  type RequestID = int
  type ExternalID = int64
  type DataSourceID = int64
  type OracleScriptID = int64
  /** Validator and account addresses are byte strings. */
  datatype Address = Address(raw: bytes)

  datatype RawRequest = RawRequest(externalID: ExternalID, dataSourceID: DataSourceID, calldata: bytes)

  datatype RawReport = RawReport(externalID: ExternalID, exitCode: uint32, data: bytes)

  datatype Report = Report(validator: Address, inBeforeResolve: bool, rawReports: seq<RawReport>)

  datatype IBCInfo = IBCInfo(sourcePort: bytes, sourceChannel: bytes)

  datatype Request = Request(
    oracleScriptID: OracleScriptID,
    calldata: bytes,
    requestedValidators: seq<Address>,
    minCount: uint64,
    requestHeight: int64,
    requestTime: int64,
    clientID: bytes,
    ibcInfo: Option<IBCInfo>,
    rawRequestIDs: seq<ExternalID>)

  datatype ResolveStatus = Open | Success | Failure | Expired

  datatype RequestPacket = RequestPacket(
    clientID: bytes,
    oracleScriptID: OracleScriptID,
    calldata: bytes,
    askCount: uint64,
    minCount: uint64)

  datatype ResponsePacket = ResponsePacket(
    clientID: bytes,
    requestID: RequestID,
    ansCount: uint64,
    requestTime: int64,
    resolveTime: int64,
    resolveStatus: ResolveStatus,
    result: bytes)

  datatype DataSource = DataSource(owner: Address, name: bytes, description: bytes, filename: bytes)

  datatype OracleScript = OracleScript(
    owner: Address, name: bytes, description: bytes, filename: bytes, schema: bytes, sourceCodeURL: bytes)

  datatype Params = Params(
    maxRawRequestCount: uint64,
    maxAskCount: uint64,
    expirationBlockCount: uint64,
    maxConsecutiveMisses: uint64)

  const MAX_CALLDATA_SIZE := 1024
  const MAX_CLIENT_ID_LENGTH := 128
  const MAX_RAW_REQUEST_DATA_SIZE := 1024
  const MAX_RAW_REPORT_DATA_SIZE := 1024
}
