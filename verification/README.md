# BandChain oracle: a verified model

This project models the parts of BandChain on which the trust in its price data rests, and proves
what they promise:

* **The oracle module** (`OracleTypes`, `ExecEnv`, `OracleState`, `Keeper`, `OracleInvariants`,
  `OracleTheorems`, `OracleTransactions`, `OracleBlocks`, `LateReport`): requests are prepared, validators report, pending requests are resolved when the
  block ends, old requests expire and validators who missed are judged. `Keeper` is the store with its
  methods, in the order and with the branches of the Go code; each method is proved to compute a
  function on `OracleState.State`. An invariant is kept by every step, and the theorems speak about every
  state of every run from a genesis without results, whatever miss counters it carries over. A run interleaves transactions (valid or not, direct
  or over IBC), block boundaries and arbitrary changes by the staking module and by script owners. The
  scripts themselves are arbitrary functions of what they can see. `OracleTransactions` decides from a message
  and the store alone what a transaction changes, and `OracleBlocks` what the end of a block writes; both say
  where every stored request, report and result comes from.
* **Validator sampling** (`Powers`, `CandidateWindow`, `Sampling`): the shrinking window and the weighted choice.
* **The OBI codec** (`Obi`, `ObiRoundTrip`, `ObiCodec`, `ObiBytes`), its **schema language** printed in Go and parsed
  in Python (`ObiSchema`, `PyObi`, `PyObiEncoding`), and the **result commitment** built on it
  (`Commitment`).
* **The generated protobuf code** of the stored records (`ProtoWire`, `ProtoMarshal`, `ProtoParsing`,
  `ProtoUnmarshal`, `ProtoRoundTrip`, `ProtoUnknown`, `ProtoBytes`): marshalling backwards into a buffer of the exact
  size, reading forwards.
* **On-chain aggregation** (`Aggregation`): the majority vote and the median of the script library.
* **The byte-keyed store, genesis and export** (`ByteStore`, `ReportScan`, `Genesis`, `Export`): from the bytes of the
  keys through the prefix scans to the tables that come back after a restart.

Go's fixed-width integers are written out where they can wrap (`MachineTypes`): the expiry test, the miss
counter, conversions between `int64` and `uint64`, varints. Everything that can panic in Go returns an
`Outcome`. Source paths below are relative to the root of the repository.

## Where the code differs from its documentation

The model follows the code.

* `GetCandidateSize` says that the size decreases every round and is at least 2. It is at least 2 exactly
  while more than one entry is left (`CandidateWindow.CandidateWindowAtLeastTwoIff`), and it shrinks from one
  round to the next exactly in the first round, in front of the last entry, or when a (k-1)-th power lies
  between the two powers of n-1 whose root is taken (`CandidateWindow.CandidateWindowShrinksIff`);
  `CandidateWindow.CandidateWindowCanRepeat` is a case in which it stays the same. The comment asks for
  `totalCount <= totalRound`; the code panics unless `totalCount >= totalRound`.
* `SaveResult` hands MinCount and the number of requested validators to parameters that are named AskCount
  and MinCount. The committed request packet is the submitted one exactly when the two counts are equal
  (`OracleTheorems.CommittedPacketMatchesIff`).
* The comment in `ProcessExpiredRequests` calls a request that expires without enough reports never
  resolved. Late reports are accepted, and an Expired result is followed by one Success or Failure once they
  reach the minimum: `LateReport.LateReportIsResolved` is such a run, and after every block a result is final
  if and only if the reports present reach the minimum (`OracleTheorems.ResultIsFinalIffAnswered`). Success
  and Failure are final.
* The expiry test adds in `int64`. It agrees with the exact sum if and only if the sum fits
  (`OracleTheorems.ExpiryTestExactIff`); an expiration count of 2^63 makes every request expire at once. The
  frontier that the scan leaves is right if and only if no sum wraps or the scan stops at a request that is
  not due before it meets one that does (`OracleTheorems.FrontierIsExactIff`).
* With the largest possible maximum of consecutive misses the counter wraps around to 0 before it exceeds
  the maximum, and nobody is ever jailed (`OracleTheorems.JailingPossibleIff`).
* `DecodeBytes` compares a length with the number of remaining bytes cut to 32 bits, so a value in front of
  2^32 or more bytes may be refused (`ObiRoundTrip.LongRoundTripFails`). The round trip holds exactly when
  this check passes (`ObiRoundTrip.RoundTripIff`), and always for encodings shorter than 2^32 bytes.
* Python's `PyObiString` writes the number of characters where Go writes the number of bytes: the two agree
  exactly on strings of one-byte characters (`PyObiEncoding.PyStringMatchesGoIff`), and on a value of any
  type exactly if all its strings are such (`PyObiEncoding.PyEncodesLikeGoIff`).
* `InitGenesis` restores the request count from the results but no requests. The first block then ends only
  if there were no results, whatever transactions it carries (`OracleGenesis.FirstBlockEndsIff`).
* The median of an even number of integers adds the two middle values first. If the sum wraps, the result
  lies outside the two (`Aggregation.HalfIsBetweenIff`).

## Model

| member | source | states |
|---|---|---|
| CandidateWindow.CandidateWindowFits | chain/pkg/bandrng/sampling.go:49-69 | The size is returned exactly when 0 <= currentRound < totalRound <= totalCount, and then lies between 1 and the number of entries still left, so slicing the window never runs past them |
| CandidateWindow.CandidateSizeIsExact | chain/pkg/bandrng/sampling.go:49-69 | The size of each branch: all entries in round 0, one when a single entry is left, and otherwise one more than the largest s whose (k-1)-th power does not exceed (n-1) to the power of the rounds behind this one |
| CandidateWindow.CandidateWindowNeverGrows | chain/pkg/bandrng/sampling.go:49-69 | The window of the next round is never larger |
| CandidateWindow.CandidateWindowAtLeastTwoIff | chain/pkg/bandrng/sampling.go:44-69 | In every round the size is at least 2, as the comment says, if and only if more than one entry is left |
| CandidateWindow.CandidateWindowShrinksIff | chain/pkg/bandrng/sampling.go:44-69 | The size decreases from a round to the next, as the comment says, if and only if it is the first round, the next entry is the last, or a (k-1)-th power lies between the two powers of n-1 |
| CandidateWindow.CandidateWindowCanRepeat | chain/pkg/bandrng/sampling.go:41-48 | Two rounds in which the window stays the same, against the comment |
| CandidateWindow.FloorPowerIsExact | chain/pkg/bandrng/sampling.go:64-67 | The model's integer power is the largest s with s^q <= base^p, and only that number |
| CandidateWindow.WindowInequality | chain/pkg/bandrng/sampling.go:64-68 | The inequality (m-r+1)^q > m^(q-r) that keeps the fractional power below the entries left |
| Sampling.AddUint64Overflow | chain/pkg/bandrng/sampling.go:9-15 | The flag is raised exactly when the sum exceeds 64 bits; otherwise the sum is exact |
| Sampling.ChooseOne | chain/pkg/bandrng/sampling.go:19-39 | The loop returns index i when the next draw modulo the total lies in the interval of running sums of i, draws once, and panics exactly on an overflowing or zero total; the last panic is unreachable |
| Sampling.ChoiceIsDecidedByDraw | chain/pkg/bandrng/sampling.go:19-39 | For every draw: ChooseOne panics if and only if the total is zero or overflows, and otherwise answers i if and only if the draw modulo the total lies among the numbers of i |
| Sampling.SelectsIff | chain/pkg/bandrng/sampling.go:29-36 | An index is selected if and only if the lucky number lies in its own interval of running sums |
| Sampling.ChoiceIsProportional | chain/pkg/bandrng/sampling.go:17-39 | Exactly weights[i] of the lucky numbers below the total select index i |
| Sampling.ModuloBiasIsExact | chain/pkg/bandrng/sampling.go:29 | Of the 2^64 draws, ChooseOne answers i on its weight times the number of whole blocks of the total, plus its lucky numbers below the remainder of 2^64; so at most one weight more than its share of whole blocks |
| Sampling.DeleteAt | chain/pkg/bandrng/sampling.go:88-89 | The append in place removes one entry, shifts those behind it and touches nothing past the length |
| Sampling.ChooseK | chain/pkg/bandrng/sampling.go:73-93 | The loop with its in-place deletions computes Sample, uses one draw for each pick, decides pick r by draw r over the window of what is left, and leaves the caller's weights unchanged |
| Sampling.RemainingAfterDelete | chain/pkg/bandrng/sampling.go:76-90 | Deleting from both slices keeps weightValues[i] == weights[weightIndexes[i]], and the picked index is gone |
| Sampling.SampleIsSound | chain/pkg/bandrng/sampling.go:73-93 | A returned sample has k distinct indexes in range with positive weights, and the pick of round r lies below GetCandidateSize(r, k, n) + r |
| Sampling.SampleIsDrawn | chain/pkg/bandrng/sampling.go:73-93 | Pick r is the entry that draw number r, modulo the weight of the window, selects among the first GetCandidateSize(r, k, n) entries that are left, for every stream |
| Sampling.SamplePanicsIffTooMany | chain/pkg/bandrng/sampling.go:73-93 | On positive weights whose sum fits 64 bits, sampling panics if and only if more entries are wanted than there are |
| ExecutionEnvironment.ExecEnv.AskExternalData | chain/x/oracle/types/exec_env.go:35-45 | Appends the raw request unless its data is too large or the limit is reached |
| ExecutionEnvironment.ExecEnv.SetReports | chain/x/oracle/types/exec_env.go:82-93 | Panics exactly outside a resolve environment; otherwise loads every report by validator and external ID |
| ExecutionEnvironment.AskAllKeepsAPrefix | chain/x/oracle/types/exec_env.go:35-45 | Over a whole prepare run, exactly the first maxRawRequests asks that are short enough are kept, in order; a negative limit keeps none |
| ExecutionEnvironment.LoadedTableIsStoredTable | chain/x/oracle/types/exec_env.go:82-93 | The loaded table is the stored one, whatever the order in which the store lists the reports |
| ExecutionEnvironment.LastRawReportIsFound | chain/x/oracle/types/exec_env.go:86-91 | Of several raw reports with one external ID the last one stays |
| ExecutionEnvironment.ScriptSeesExactlyTheReports | chain/x/oracle/types/exec_env.go:47-61 | A script asking for an external ID and validator index gets that validator's stored raw report, or (nil, -1) when there is none; nil data goes with -1 |
| OracleKeeper.ValidateReportMessage | chain/x/oracle/types/msgs.go:56-77 | The loop accepts exactly messages with well-formed addresses, at least one raw report, distinct external IDs and short data |
| OracleKeeper.Keeper.GetReports | chain/x/oracle/keeper/report.go:66-75 | Lists each stored report of the request exactly once |
| OracleKeeper.Keeper.AddReport | chain/x/oracle/keeper/report.go:22-48 | Refuses for the first of its five reasons, leaving the store unchanged, or stores the report |
| OracleKeeper.Keeper.HandleReport | chain/x/oracle/handler.go:132-152 | The report is flagged by whether a result exists, stored, and the request becomes pending at exactly MinCount reports |
| OracleKeeper.Keeper.ReportTx | chain/x/oracle/handler.go:132-152 | A report message that fails anywhere leaves the whole store unchanged |
| OracleKeeper.Keeper.ListValidators | chain/x/oracle/keeper/request.go:52-58 | The operators and tokens of all bonded validators in order; panics exactly when some number of tokens exceeds 64 bits |
| OracleKeeper.Keeper.GetRandomValidators | chain/x/oracle/keeper/request.go:51-71 | The operators at the sampled indexes, an error when there are too few, a panic when sampling panics |
| OracleKeeper.Keeper.AddRequest | chain/x/oracle/keeper/request.go:74-78 | Stores the request under the next ID |
| OracleKeeper.Keeper.PrepareRequest | chain/x/oracle/keeper/owasm.go:20-78 | Every error in its order; a missing data source is noticed only after the request is stored |
| OracleKeeper.Keeper.RequestTx | chain/x/oracle/handler.go:124-130 | A failing request is rolled back, also the one that was stored before the failure |
| OracleKeeper.Keeper.SaveResult | chain/x/oracle/keeper/request.go:82-109 | Commits to the request and to a response with the current report count, and returns that response |
| OracleKeeper.Keeper.ResolveRequest | chain/x/oracle/keeper/owasm.go:82-101 | Success with the return data or Failure, by the exit code of a script that sees exactly the stored reports |
| OracleKeeper.Keeper.HandleValidatorReport | chain/x/oracle/keeper/infractions.go:13-47 | Counts, resets or jails, with the 64-bit counter written back |
| OracleKeeper.Keeper.UpdateReportInfos | chain/x/oracle/keeper/report.go:92-103 | Judges every requested validator once, by whether a report of it is stored |
| OracleKeeper.Keeper.ProcessExpiredRequests | chain/x/oracle/keeper/request.go:112-139 | The early-breaking scan expires and judges the requests it passes and advances RequestLastExpired |
| OracleKeeper.Keeper.EndBlock | chain/x/oracle/endblock.go:9-20 | Resolves all pending requests, clears the list, then expires, in this order |
| OracleInvariants.NextKeepsInv | chain/x/oracle/handler.go:13-36 | Every allowed step from a state with the invariant returns, and keeps the invariant |
| OracleInvariants.EndBlockKeepsInv | chain/x/oracle/endblock.go:9-20 | EndBlock never panics, keeps the invariant, empties the pending list and stops the scan at the first unexpired request |
| OracleInvariants.AcceptReportKeepsInv | chain/x/oracle/handler.go:136-145 | An accepted report, with the exact-count trigger, keeps the invariant |
| OracleInvariants.Pigeonhole | chain/x/oracle/keeper/report.go:31-45 | Distinct members, as many as the list is long and all on it, force the list to be distinct and both to hold the same elements |
| OracleInvariants.AcceptedReportAnswers | chain/x/oracle/keeper/report.go:22-48 | A report that passes ValidateBasic and AddReport answers exactly the raw request IDs, which then have no duplicates |
| OracleTheorems.EveryStateHasInv | chain/x/oracle/endblock.go:9-20 | Every state of every run has the invariant |
| OracleTheorems.ChainNeverHalts | chain/x/oracle/keeper/owasm.go:82-86 | In every state of every run every allowed step returns: no MustGetRequest or MustGetOracleScript fails at the end of a block |
| OracleTheorems.ResultsAreFinal | chain/x/oracle/handler.go:140-145 | In every run each request becomes pending at most once, is written Expired at most once and resolved at most once, and nothing is written after Success or Failure |
| OracleTheorems.LaterStatesRemember | chain/x/oracle/keeper/request.go:112-139 | Requests, reports and the history are only ever added to |
| OracleTheorems.FinalResultNeverChanges | chain/x/oracle/keeper/request.go:82-109 | A Success or Failure result is the same in every later state |
| OracleTheorems.ResultIsLastSave | chain/x/oracle/keeper/result.go:11-19 | The stored result is the last one saved; there are at most two, and the first of two is Expired |
| OracleTheorems.ExpiryTestExactIff | chain/x/oracle/keeper/request.go:115-123 | The 64-bit expiry test means height + count <= current height if and only if that sum fits |
| OracleTheorems.HugeExpirationCountExpiresAtOnce | chain/x/oracle/keeper/request.go:115-123 | With a count of 2^63 a request expires in its own block |
| OracleTheorems.FrontierIsExactIff | chain/x/oracle/keeper/request.go:112-139 | After every block of every run, the requests up to RequestLastExpired are exactly those whose expiry height is reached, if and only if before it no sum of height and count wraps, or some request that is not yet due has one that does not |
| OracleTheorems.FrontierIsExact | chain/x/oracle/keeper/request.go:112-139 | When no sum wraps: IDs are exactly 1..RequestCount, and each is at or below RequestLastExpired exactly if its expiry height is reached |
| OracleTheorems.ResultsAreComplete | chain/x/oracle/endblock.go:11-17 | After every block nothing is pending, and a request has a result if and only if its MinCount is at least 1 and it has MinCount reports or is at or below RequestLastExpired |
| OracleTheorems.ResultIsFinalIffAnswered | chain/x/oracle/keeper/request.go:126-133 | After every block a result is Success or Failure if and only if the reports present, late ones included, reach MinCount, and Expired otherwise |
| LateReport.LateReportIsResolved | chain/x/oracle/keeper/request.go:126-133 | A run of three blocks in which a request has no result after the first, an Expired one after the second, and after a late report a final one after the third |
| OracleTheorems.AnswerCountsMatchStatus | chain/x/oracle/keeper/request.go:126-133 | A stored result is Success or Failure exactly when its AnsCount reaches MinCount, and else Expired |
| OracleTheorems.FlaggedReportsMatchFirstAnswer | chain/x/oracle/handler.go:136 | In every state the reports flagged InBeforeResolve are as many as the AnsCount of the first saved result |
| OracleTheorems.JudgedExactlyOnce | chain/x/oracle/keeper/report.go:92-103 | In every run the verdicts are exactly the requested validators of the expired requests, each pair once, in ID order |
| OracleTheorems.VerdictsAreTrue | chain/x/oracle/keeper/report.go:92-103 | Every verdict passed in a block says truly whether that validator's report is stored |
| OracleTheorems.MissesMatchHistory | chain/x/oracle/keeper/infractions.go:13-47 | From any initial counters, ConsecutiveMissed is the trailing run of misses since the last report, reset or jailing, modulo 2^64, and a validator is jailed exactly on the miss that takes the counter past the maximum |
| OracleTheorems.MissesStayWithinMaximum | chain/x/oracle/keeper/infractions.go:26-46 | A validator whose counter starts at or below the maximum never exceeds it; unless the maximum is the largest uint64, the counter is the run itself and jailing falls exactly on the miss after the maximum |
| OracleTheorems.JailingPossibleIff | chain/x/oracle/keeper/infractions.go:30-34 | Some count jails an active validator who misses if and only if the maximum is below the largest uint64 |
| OracleTheorems.ReportsStayKeyed | chain/x/oracle/keeper/report.go:15-19 | In every state each report is stored under its own validator, as the keeper's methods require |
| OracleTheorems.StoredReportsAnswer | chain/x/oracle/keeper/report.go:22-48 | Every stored report comes from a requested validator and answers exactly the raw requests |
| OracleTheorems.UnanswerableRequestsOnlyExpire | chain/x/oracle/keeper/report.go:31-45 | A request without raw requests, or with a duplicated ID, never gets a report and can only expire |
| OracleTheorems.ResolveSeesExactlyTheReports | chain/x/oracle/types/exec_env.go:47-107 | In every state of every run, a resolving script sees as many answers as reports are stored, and for each validator index and external ID exactly the stored raw report or (nil, -1) |
| OracleTheorems.CommittedPacketMatchesIff | chain/x/oracle/keeper/request.go:84-86 | The committed request packet has the two counts exchanged, and equals the submitted one if and only if they are equal |
| OracleTransactions.RandomValidatorsAreDrawn | chain/x/oracle/keeper/request.go:51-71 | The drawn validators are the operators at the positions that the stream picks, draw by draw, with the tokens as weights |
| OracleTransactions.DrawingSucceedsIff | chain/x/oracle/keeper/request.go:51-71 | With positive tokens whose total fits 64 bits the drawing succeeds if and only if 0 <= size <= the number of bonded validators, and reports a shortage if and only if there are fewer |
| OracleTransactions.RequestTxIff | chain/x/oracle/handler.go:124-130 | A request message changes the store if and only if it is valid or came over IBC, asks for no more than the maximum, its validators can be drawn, its script exists and exits with 0, the limit of raw requests is not 0, and every kept ask names a known data source; then the next ID holds exactly its request, and otherwise the store is equal |
| OracleTransactions.RequestErrorIs | chain/x/oracle/keeper/owasm.go:20-78 | Which error a failing request gets, each with the exact condition |
| OracleTransactions.ReportTxIff | chain/x/oracle/handler.go:132-152 | A report message changes the store if and only if it is well formed, its reporter is the validator or one of its reporters, and it answers exactly the raw requests of a request that asks this validator, which has not reported; then exactly this report is stored, and the request is pending at exactly MinCount reports |
| OracleTransactions.ReportErrorIs | chain/x/oracle/keeper/report.go:22-48 | Which error a refused report gets, each with the exact condition |
| OracleTransactions.MessagesDecideTheirSteps | chain/x/oracle/handler.go:124-152 | The same for every step of every run |
| OracleTransactions.StoredRequestsWereRequested | chain/x/oracle/keeper/owasm.go:20-78 | In every state of every run, each request was stored by an earlier message that went through, and carries the height and time of that message's block and its IBC information |
| OracleTransactions.StoredReportsWereReported | chain/x/oracle/handler.go:132-139 | In every state of every run, each report was delivered by an earlier message whose reporter was entitled to speak for the validator in the state before it, and is flagged by whether there was a result then |
| OracleBlocks.EndBlockWrites | chain/x/oracle/endblock.go:9-20 | For every request: if it is pending, its result is Success with the script's return data if and only if the script exits with 0, and Failure with nothing if and only if not; if it expires now below its minimum, Expired with nothing; otherwise its result is unchanged. Counts, times and packet fields are stated for each |
| OracleBlocks.BlocksWrite | chain/x/oracle/keeper/owasm.go:82-101 | The same for every block of every run |
| OracleBlocks.StoredResultsWereWritten | chain/x/oracle/keeper/request.go:82-109 | In every state of every run, each result was written by the end of an earlier block, as an answer or an expiry |
| OracleBlocks.ResponseTimes | chain/x/oracle/keeper/request.go:82-109 | The request time of a response is the time of the block that stored the request, the resolve time that of the block that wrote the response |
| OracleBlocks.VerdictsKnowTheJailed | chain/x/oracle/keeper/infractions.go:13-47 | A verdict of a block is about an active validator if and only if staking knew it and had not jailed it before the block and no earlier verdict of the block has; afterwards exactly those are jailed that were or that a verdict jailed |
| Obi.BytesRoundTripIff | chain/pkg/obi/decode.go:165-174 | Encoded bytes decode to themselves and the rest exactly when the 32-bit length check passes, and to an error otherwise |
| Obi.DecodedBytesEncode | chain/pkg/obi/decode.go:165-174 | Bytes that decode are the encoding of what they decode to |
| ObiCodec.Encode | chain/pkg/obi/encode.go:10-58 | The appending loops compute the encoding; unsupported kinds give an error, an empty struct gives no bytes |
| ObiCodec.DecodeImpl | chain/pkg/obi/decode.go:10-86 | The loops over elements and fields compute the decoding with its remainder |
| ObiCodec.Decode | chain/pkg/obi/decode.go:89-98 | Accepts exactly data that decodes with nothing left |
| ObiRoundTrip.SupportedTypesEncode | chain/pkg/obi/encode.go:10-58 | Every value of a supported type encodes |
| ObiRoundTrip.DecodingUndoesEncoding | chain/pkg/obi/decode.go:10-86 | For every type, decoding an encoding followed by anything gives back the value and that rest, or fails, by the length checks alone |
| ObiRoundTrip.EncodingUndoesDecoding | chain/pkg/obi/decode.go:10-86 | Whatever decodes is the encoding of its value followed by the remainder |
| ObiRoundTrip.RoundTripIff | chain/pkg/obi/decode.go:89-98 | Decode(Encode(v)) == v if and only if the lengths fit 32 bits and the length checks pass |
| ObiRoundTrip.LongRoundTripFails | chain/pkg/obi/decode.go:165-174 | A value whose encoding is refused: one byte of text in front of 2^32 - 1 more bytes |
| ObiRoundTrip.ShortRoundTrip | chain/pkg/obi/decode.go:89-98 | The round trip always holds for encodings below 2^32 bytes |
| ObiRoundTrip.AcceptedDataIsCanonical | chain/pkg/obi/decode.go:89-98 | If Decode accepts data as v then Encode(v) is exactly that data |
| ObiRoundTrip.EncodingsAreSelfDelimiting | chain/pkg/obi/encode.go:10-58 | Two encodings of one type with equal continuations have equal values and equal rests |
| ObiBytes.NumberBytes | chain/pkg/obi/encode.go:69-113 | Byte k of a number is its digit to the base 256, most significant first; negative numbers are in two's complement |
| ObiBytes.SliceBytes | chain/pkg/obi/encode.go:35-43 | A slice is its length in four bytes and the encodings of its elements in order |
| ObiBytes.TextBytes | chain/pkg/obi/encode.go:115-123 | A string or byte slice is its length in four bytes and its bytes |
| ObiBytes.StructBytes | chain/pkg/obi/encode.go:44-53 | A struct is the encodings of its fields in order |
| ObiBytes.EncodesIff | chain/pkg/obi/encode.go:54-56 | Encoding fails, as unsupported, if and only if some part of the value is of a kind the codec does not list |
| ObiBytes.ExampleIsEncoded | chain/pkg/obi/encode_test.go:28-38 | The example value has exactly the expected bytes |
| ObiBytes.ExampleSchemaIsPrinted | chain/pkg/obi/schema_test.go:55-57 | The example type has exactly the expected schema |
| ObiBytes.SchemaExistsIff | chain/pkg/obi/schema.go:10-78 | A type has a schema if and only if it has no unlisted kind, no empty struct and a tag on every field |
| ResultCommitment.RequestEncodingIsInjective | chain/x/oracle/types/packets.go:11-18 | Request packets with equal bytes are equal |
| ResultCommitment.ResponseEncodingIsInjective | chain/x/oracle/types/packets.go:11-18 | Response packets with equal bytes are equal |
| ResultCommitment.RequestBytes | chain/x/oracle/types/types.pb.go:957-975 | The bytes of a request packet are its five fields in the order of the struct |
| ResultCommitment.ResponseBytes | chain/x/oracle/types/types.pb.go:1046-1070 | The bytes of a response packet are its seven fields in the order of the struct, the status in four bytes |
| ResultCommitment.ResultHashBinds | chain/x/oracle/types/packets.go:21-25 | Two different packet pairs with the same result hash yield two named different inputs on which the 32-byte hash collides |
| PyObi.ScanFields | obi/pyobi/pyobi/pyobi.py:71-81 | The brace-counting scan splits the fields at the commas outside braces |
| PyObi.JoinUndoesSplit | obi/pyobi/pyobi/pyobi.py:71-81 | Nothing is lost by the split: joined with commas the fields are the text |
| PyObi.IntegerIsParsedIff | obi/pyobi/pyobi/pyobi.py:28-33 | An integer spec is parsed if and only if it is u or i and the number of bits in decimal, for 1, 2, 4, 8, 16 or 32 bytes |
| PyObi.ParsingUndoesPrinting | obi/pyobi/pyobi/pyobi.py:12-86 | Parsing the printed form of any specification whose keys are free of delimiters gives it back |
| PyObi.PrintingUndoesParsing | obi/pyobi/pyobi/pyobi.py:12-86 | Any text that parses is the printed form of what it parses to |
| PyObi.SchemaParsesBack | obi/pyobi/pyobi/pyobi.py:130-136 | A schema of two printed specifications around one slash, with whitespace anywhere, parses to the two |
| ObiSchema.GetSchemaImpl | chain/pkg/obi/schema.go:10-77 | What is appended to the shared builder is the schema of the type, or the error of the first part that is unsupported, untagged or an empty struct |
| ObiSchema.GetSchema | chain/pkg/obi/schema.go:80-87 | The text of the schema or its error |
| ObiSchema.SchemaIsPrinted | chain/pkg/obi/schema.go:10-77 | Go's schema is the printed form of the matching Python specification, []uint8 as bytes |
| ObiSchema.ParserRebuildsPrintedSchema | obi/pyobi/pyobi/pyobi.py:12-98 | Python's parser rebuilds the type tree from Go's schema whenever the tags are free of delimiters |
| PyObiEncoding.EncodeVector | obi/pyobi/pyobi/pyobi.py:51-55 | The loop writes the length and every element |
| PyObiEncoding.EncodeStruct | obi/pyobi/pyobi/pyobi.py:88-92 | The loop writes the value of every key in the order of the specification |
| PyObiEncoding.PyEncodesLikeGoIff | obi/pyobi/pyobi/pyobi.py:35-122 | For every type with a schema and matching values, the Python encoder writes as many bytes as Go's Encode, and the same ones if and only if every string in the value has one-byte characters |
| PyObiEncoding.CounterpartExists | obi/pyobi/pyobi/pyobi.py:35-122 | Every Go value with UTF-8 strings and distinct tags has a matching Python value |
| PyObiEncoding.OneByteStringsAreUtf8 | obi/pyobi/pyobi/pyobi.py:107-108 | Strings of one-byte characters are UTF-8, so such values have one too |
| PyObiEncoding.PyStringMatchesGoIff | obi/pyobi/pyobi/pyobi.py:107-108 | Python and Go write the same string bytes if and only if all characters are below 0x80 |
| PyObiEncoding.PyEncodesIff | obi/pyobi/pyobi/pyobi.py:35-122 | Encoding raises no error if and only if the value has the shape, the keys and the ranges of the specification |
| PyObiEncoding.Utf8CharIsExact | obi/pyobi/pyobi/pyobi.py:107-108 | The bytes of a character are its shortest UTF-8 form (section 3 of RFC 3629) |
| ProtoWire.SovIsVarintLength | chain/x/oracle/types/types.pb.go:3890-3892 | sovTypes, computed from the bit length, is the number of bytes encodeVarintTypes writes |
| ProtoWire.ReadVarintLoop | chain/x/oracle/types/types.pb.go:6124-6138 | The shifting loop reads the varint at an index, reduced to 64 bits, and fails on more than ten bytes or the end of the data |
| ProtoWire.VarintRoundTrip | chain/x/oracle/types/types.pb.go:3369-3379 | Reading a written varint followed by anything gives back the uint64 and the rest (Protocol Buffers Encoding, section Base 128 Varints) |
| ProtoBytes.VarintByte | chain/x/oracle/types/types.pb.go:3369-3379 | Byte k of a varint is digit k to the base 128 from the lowest on, with the continuation bit on all but the last (Protocol Buffers Encoding, section Base 128 Varints) |
| ProtoBytes.VarintLength | chain/x/oracle/types/types.pb.go:3369-3379 | A varint has no more bytes than the number has digits to the base 128 |
| ProtoBytes.VarintRefuses | chain/x/oracle/types/types.pb.go:6124-6138 | Data that ends inside a varint, and a varint of more than ten bytes, are refused |
| ProtoMarshal.EncodeVarint | chain/x/oracle/types/types.pb.go:3369-3379 | Writes the varint so that it ends at the offset, returns where it begins, and changes no other byte |
| ProtoMarshal.RawReportSize | chain/x/oracle/types/types.pb.go:3685-3702 | The size is the length of the wire form |
| ProtoMarshal.IBCInfoSize | chain/x/oracle/types/types.pb.go:3808-3823 | The size is the length of the wire form |
| ProtoMarshal.ReportSize | chain/x/oracle/types/types.pb.go:3825-3845 | The size is the length of the wire form, over all nested raw reports |
| ProtoMarshal.RequestSize | chain/x/oracle/types/types.pb.go:3762-3806 | The size is the length of the wire form, with repeated validators, nested IBC information and packed IDs |
| ProtoMarshal.MarshalRawReport | chain/x/oracle/types/types.pb.go:2954-2978 | Writing backwards consumes exactly Size() bytes, leaves the wire form there and every other byte as it was |
| ProtoMarshal.MarshalIBCInfo | chain/x/oracle/types/types.pb.go:3205-3225 | The same for IBC information |
| ProtoMarshal.MarshalReport | chain/x/oracle/types/types.pb.go:3242-3282 | The same for a report, its raw reports written last to first |
| ProtoMarshal.MarshalRequest | chain/x/oracle/types/types.pb.go:3108-3188 | The same for a request, the packed IDs through their scratch buffer of ten bytes each |
| ProtoMarshal.RawReportMarshal | chain/x/oracle/types/types.pb.go:2939-2947 | The buffer of the computed size is filled completely and is the wire form |
| ProtoMarshal.ReportMarshal | chain/x/oracle/types/types.pb.go:3227-3235 | The same for a report |
| ProtoMarshal.RequestMarshal | chain/x/oracle/types/types.pb.go:3093-3101 | The buffer of the computed size is filled completely and is the wire form |
| ProtoBytes.RawReportLayout | chain/x/oracle/types/types.pb.go:2954-2978 | The wire form: fields in the order of their numbers, each behind its number and wire type, zero and empty ones left out (Protocol Buffers Encoding, section Message Structure) |
| ProtoBytes.IBCInfoLayout | chain/x/oracle/types/types.pb.go:3205-3225 | The same for IBC information |
| ProtoBytes.ReportLayout | chain/x/oracle/types/types.pb.go:3242-3282 | The same for a report, one field for each raw report in order |
| ProtoBytes.RequestLayout | chain/x/oracle/types/types.pb.go:3108-3188 | The same for a request, one field for each validator in order and the external IDs packed into one |
| ProtoUnmarshal.SkipTypes | chain/x/oracle/types/types.pb.go:7504-7581 | The skipping loop with its depth counter passes over one field and returns the index behind it, past the end or not, or the error of the code, an overflowing index included |
| ProtoUnmarshal.UnmarshalRawReport | chain/x/oracle/types/types.pb.go:6119-6243 | The reading loop merges the fields of the data into the message, with the errors of the code, a negative or overflowing length included |
| ProtoUnmarshal.UnmarshalIBCInfo | chain/x/oracle/types/types.pb.go:6973-7089 | The same for IBC information |
| ProtoUnmarshal.UnmarshalReport | chain/x/oracle/types/types.pb.go:7090-7230 | The same for a report with nested raw reports |
| ProtoUnmarshal.UnmarshalRequest | chain/x/oracle/types/types.pb.go:6634-6972 | The same for a request; field 9 is taken packed or unpacked, and a packed varint may end behind the packed bytes |
| ProtoBytes.LargeVarintIsReduced | chain/x/oracle/types/types.pb.go:6124-6138 | A varint of up to ten bytes that holds more than 64 bits is reduced to 64 |
| ProtoBytes.NumbersReplace | chain/x/oracle/types/types.pb.go:6634-6972 | A number that is written replaces the one that is there, also a zero that no writer sends, cut to the width of its field; a flag is true for every number but 0 |
| ProtoBytes.BytesReplace | chain/x/oracle/types/types.pb.go:6634-6972 | So do bytes, also empty ones; validators are appended |
| ProtoBytes.RequestRefuses | chain/x/oracle/types/types.pb.go:6655-6670 | A known field with a wire type that is not its own is refused, and so are an end of group and the field number 0 |
| ProtoBytes.ReportRefuses | chain/x/oracle/types/types.pb.go:7111-7122 | The same for a report |
| ProtoBytes.RawReportRefuses | chain/x/oracle/types/types.pb.go:6140-6151 | The same for a raw report |
| ProtoBytes.IBCInfoRefuses | chain/x/oracle/types/types.pb.go:6994-7005 | The same for IBC information |
| ProtoBytes.PayloadRefuses | chain/x/oracle/types/types.pb.go:6186-6213 | A negative length, one that reaches past the data and one whose end overflows an int are refused, each with its error |
| ProtoBytes.SkipRefuses | chain/x/oracle/types/types.pb.go:7504-7581 | The wire types 6 and 7 and an end of group without a beginning are refused; a value that is cut off leads past the end, or fails inside a group |
| ProtoRoundTrip.RawReportRoundTrip | chain/x/oracle/types/types.pb.go:6119-6243 | Unmarshal undoes Marshal for every raw report |
| ProtoRoundTrip.ReportRoundTrip | chain/x/oracle/types/types.pb.go:7090-7230 | Unmarshal undoes Marshal for every report |
| ProtoRoundTrip.IBCInfoRoundTrip | chain/x/oracle/types/types.pb.go:6973-7089 | Unmarshal undoes Marshal for all IBC information |
| ProtoRoundTrip.RequestRoundTrip | chain/x/oracle/types/types.pb.go:6634-6972 | Unmarshal undoes Marshal for every request, negative times and heights, absent and empty IBC information and packed IDs included |
| ProtoRoundTrip.RequestsMerge | chain/x/oracle/types/types.pb.go:6634-6972 | Reading into a request that has contents: written single fields replace, validators and IDs are appended, IBC information is merged, and everything else stays |
| ProtoRoundTrip.ReportsMerge | chain/x/oracle/types/types.pb.go:7090-7230 | The same for reports: raw reports are appended |
| ProtoRoundTrip.RawReportsMerge | chain/x/oracle/types/types.pb.go:6119-6243 | The same for raw reports |
| ProtoRoundTrip.IBCInfosMerge | chain/x/oracle/types/types.pb.go:6973-7089 | The same for IBC information |
| ProtoRoundTrip.PackedReads | chain/x/oracle/types/types.pb.go:6891-6945 | Packed IDs followed by anything are read back with that rest (Protocol Buffers Encoding, section Packed Repeated Fields) |
| ProtoRoundTrip.UnpackedIDsReadAlike | chain/x/oracle/types/types.pb.go:6873-6890 | IDs sent unpacked by an older writer are read as the same list |
| ProtoUnknown.FieldIsSkipped | chain/x/oracle/types/types.pb.go:7504-7581 | One well-formed field of any wire type, with groups nested to any depth, is passed over exactly |
| ProtoUnknown.UnknownFieldIsIgnored | chain/x/oracle/types/types.pb.go:6949-6964 | A request with a field of an unknown number in front of the rest reads as without it |
| Aggregation.VoteStep | owasm/src/ext/mod.rs:69-79 | One step of the reseeding vote keeps 2*occ(x) <= i+1-count for others, 2*occ(candidate) <= i+count and count >= 1, so the count never underflows |
| Aggregation.Majority | owasm/src/ext/mod.rs:59-93 | Some(x) if and only if x occurs in more than half of the list |
| Aggregation.LoadMajority | owasm/src/ext/mod.rs:46-57 | The same, and None for the empty list |
| Aggregation.OnlyOneMajority | owasm/src/ext/mod.rs:81-92 | At most one value can be a majority |
| Aggregation.ComputeMedian | owasm/src/ext/mod.rs:107-118 | Sorts the list in place into a permutation and returns its median, which is the middle value or half the sum of the two middle ones of any sorted arrangement, in exact arithmetic or in that of an integer type |
| Aggregation.MedianIsMiddle | owasm/src/ext/mod.rs:107-118 | For any sorted arrangement of the values: the middle one for an odd number; for an even number exactly half the sum of the two middle ones in exact arithmetic, and in an integer type whose sum fits the whole number truncated towards zero |
| Aggregation.MedianIgnoresOrder | owasm/src/ext/mod.rs:107-118 | Lists with the same values in any order have the same median |
| Aggregation.MedianIsRobust | owasm/src/ext/mod.rs:107-118 | If more than half of the values lie in [lo, hi], so does the median, for odd and even lengths, whenever the sum of the two middle values fits the type |
| Aggregation.WrappedMedianIsNotRobust | owasm/src/ext/mod.rs:113-114 | If that sum wraps, some range holds more than half of the values but not the median |
| Aggregation.HalfIsBetweenIff | owasm/src/ext/mod.rs:113-114 | Half the sum of two elements lies between them if and only if the sum does not wrap |
| ByteStore.KeysAreDistinct | chain/x/oracle/types/key.go:46-88 | Keys of different records never have the same bytes |
| ByteStore.IdByte | chain/x/oracle/types/key.go:46-88 | Byte i of an identifier in a key is its digit to the base 256, most significant first |
| ByteStore.ReporterKeysNeedFixedLength | chain/x/oracle/types/key.go:74-78 | Two reporter keys with the same bytes are the same record if and only if their validator parts have equal length |
| ByteStore.ReporterKeysShift | chain/x/oracle/types/key.go:74-78 | Every reporter key is also the key of another record, with a longer validator part |
| ByteStore.HasRefines | chain/x/oracle/types/key.go:46-88 | A lookup by bytes answers as the typed map |
| ByteStore.SetRefines | chain/x/oracle/types/key.go:46-88 | A write by bytes is a write to the typed map and touches no other record |
| ByteStore.DeleteRefines | chain/x/oracle/types/key.go:46-88 | A deletion by bytes is a deletion from the typed map |
| ByteStore.ScanVisitsKindInOrder | chain/x/oracle/types/key.go:46-88 | A prefix scan visits exactly the records of its kind, in ascending order of their IDs |
| OracleReportScan.ScanListsReports | chain/x/oracle/types/key.go:52-61 | The values met by the byte scan of one request list its reports, each exactly once, as the keeper's table has them |
| OracleReportScan.GetReports | chain/x/oracle/keeper/report.go:66-75 | The scan loop over the byte store returns such a list |
| ByteStore.ReportScanVisitsOneRequest | chain/x/oracle/types/key.go:52-61 | A scan for the reports of one request visits exactly those |
| OracleGenesis.Registry.InitGenesis | chain/x/oracle/genesis.go:32-59 | Data sources and scripts are numbered from 1, results stored under their positions, the request count is the number of results |
| OracleGenesis.Registry.AddDataSource | chain/x/oracle/keeper/data_source.go:41-45 | The next ID is one more than the last and holds the new record; all others are unchanged |
| OracleGenesis.Registry.AddOracleScript | chain/x/oracle/keeper/oracle_script.go:41-45 | The same for scripts |
| OracleExport.ScanListsTable | chain/x/oracle/types/key.go:46-88 | A prefix scan of the byte store meets exactly the entries of its table, each once, in the order of their identifiers, with their values |
| OracleExport.ScanListsInfos | chain/x/oracle/keeper/report_info.go:32-42 | A scan for the report infos meets exactly those of the table |
| OracleExport.GetAllDataSources | chain/x/oracle/keeper/data_source.go:58-68 | Numbered from 1, the scanned list is the stored table if and only if its identifiers have no gap |
| OracleExport.GetAllOracleScripts | chain/x/oracle/keeper/oracle_script.go:61-71 | The same for scripts |
| OracleExport.GetAllValidatorReportInfos | chain/x/oracle/keeper/report_info.go:32-42 | The scanned list restores the stored miss counters |
| OracleExport.GetAllResults | chain/x/oracle/keeper/result.go:31-49 | With gaps filled by nil, the list restores exactly the stored results under the same identifiers, and is as long as the highest of them |
| OracleExport.RecordsRestoredIff | chain/x/oracle/genesis.go:39-44 | Any table listed in order comes back under the same identifiers if and only if these had no gap |
| OracleExport.ExportGenesis | chain/x/oracle/genesis.go:62-70 | The export of a byte store holds exactly what the four restorations need |
| OracleExport.RestartFromExport | chain/x/oracle/genesis.go:32-70 | ExportGenesis then InitGenesis gives back results and miss counters under the same identifiers, data sources and scripts if and only if their identifiers had no gap, and as request count the highest identifier with a result |
| OracleExport.RegistryHasNoGaps | chain/x/oracle/keeper/data_source.go:41-45 | What AddDataSource and AddOracleScript have handed out has no gap |
| OracleExport.RequestCountRestoredIff | chain/x/oracle/genesis.go:48-53 | The request count comes back if and only if the last request had a result or there was none |
| OracleGenesis.FirstBlockEndsIff | chain/x/oracle/genesis.go:48-53 | From a genesis, after any steps of a first block, EndBlock returns if and only if the genesis had no results |

## Left out

- Compiling and running scripts, their spans and gas: a prepare or execute run is an arbitrary function of what the environment shows, with an exit code and its calls.
- SHA-256 and the seed of the random generator: an arbitrary 32-byte function and an arbitrary stream of uint64; the store of the model keeps the two packets a result hash commits to instead of the hash.
- Floating-point rounding in `GetCandidateSize`: the fractional power is the exact integer root.
- Aggregation.ComputeMedian: unordered floating-point values, on which the comparison panics, and the rounding of floating-point sums are not modelled; integer sums wrap as in builds without overflow checks, where builds with them panic.
- Aggregation.Majority: the doubling of the count is on unbounded integers; `usize` could overflow only on lists longer than half the address space.
- Aggregation.LoadMajority: reading and parsing the inputs, and the average.
- Request, data source and script counters and IDs are unbounded; the code increments an int64.
- OracleKeeper.Keeper.ResolveRequest: sending the response over IBC changes nothing in the modelled store and is left out, as are events and logs.
- OracleKeeper.Keeper.GetRandomValidators: the staking module is a list of operators with their tokens, most powerful first; jailing sets a flag.
- ExecutionEnvironment.ExecEnv.SetReports: the table is keyed by address bytes, where the code uses the printed address.
- OracleKeeper.Keeper.RequestTx: the address format of the sender is not checked, because the sender plays no further part.
- Messages that create or edit data sources and scripts, and those that add or remove reporters, are steps by which the environment changes those tables; scripts are never removed.
- Parameters stay as they are during a run; runs start from a genesis without results.
- DeleteRequest and DeleteReports, which nothing calls.
- ObiCodec.DecodeImpl: the target is returned as a value; what a failed decoding leaves in it is not modelled, nor are types that contain pointers, maps or arrays beyond the error they give.
- ObiSchema.GetSchemaImpl: what a failing call leaves in the builder, which the caller drops.
- PyObi.PrintingUndoesParsing: specifications hold no line breaks, which the schema parser removes first.
- The Python decoder and the JavaScript library.
- ProtoUnmarshal.UnmarshalRequest: the message is returned as a value, so that what a failed call leaves in it is not modelled; nil and empty slices are identified; the same for the other messages.
- ProtoMarshal.RequestMarshal: a message whose size exceeds the largest int cannot exist in memory and is excluded; the same for the other messages.
- The messages, packets and genesis types of the generated code other than RawReport, Report, IBCInfo and Request repeat the same patterns.
- ByteStore.ScanVisitsKindInOrder: the amino encoding of the values is outside, so that stores hold decoded records, and so is the iterator's implementation; a scan is the ascending list of the keys with the prefix.
- OracleGenesis.Registry.InitGenesis: parameters and the port binding are left out.
- The file cache and the contents of script files, command line, REST, database mirror, daemons, light-client proofs and the research scripts.
