/** The environment an oracle script runs in. */
module ExecutionEnvironment {
  import opened MachineTypes
  import opened OracleTypes

  type ReportTable = map<Address, map<ExternalID, RawReport>>

  /** The contents of an environment, as a value: everything a script run may look at. */
  datatype View = View(
    request: Request,
    now: int64,
    maxRawRequests: int64,
    rawRequests: seq<RawRequest>,
    reports: ReportTable,
    retdata: bytes)
  {
    /** The data and status of validator `index` for `externalID`: nil and -1 if there is none. */
    function GetExternalDataFull(externalID: ExternalID, index: int64): (Option<bytes>, int64) {
      if index < 0 || index >= |request.requestedValidators| then (None, -1)
      else if request.requestedValidators[index] !in reports then (None, -1)
      else
        var valReports := reports[request.requestedValidators[index]];
        if externalID !in valReports then (None, -1)
        else
          var status: int64 := valReports[externalID].exitCode;
          (Some(valReports[externalID].data), status)
    }

    function GetAnsCount(): nat {
      |reports|
    }
  }

  /** The raw reports of one report by external ID; of two with the same ID the later one stays. */
  function ByExternalID(rawReports: seq<RawReport>): map<ExternalID, RawReport> {
    if rawReports == [] then map[]
    else
      var last := rawReports[|rawReports| - 1];
      ByExternalID(rawReports[..|rawReports| - 1])[last.externalID := last]
  }

  function LoadReports(reports: seq<Report>): ReportTable {
    if reports == [] then map[]
    else
      var last := reports[|reports| - 1];
      LoadReports(reports[..|reports| - 1])[last.validator := ByExternalID(last.rawReports)]
  }

  /** The raw requests after the script has asked for one more: too long a calldata or a full
      list drops the ask silently. */
  function Ask(rawRequests: seq<RawRequest>, ask: RawRequest, maxRawRequests: int64): seq<RawRequest> {
    if |ask.calldata| > MAX_RAW_REQUEST_DATA_SIZE || |rawRequests| >= maxRawRequests then rawRequests
    else rawRequests + [ask]
  }

  function AskAll(asks: seq<RawRequest>, maxRawRequests: int64): seq<RawRequest> {
    if asks == [] then []
    else Ask(AskAll(asks[..|asks| - 1], maxRawRequests), asks[|asks| - 1], maxRawRequests)
  }

  class ExecEnv {
    const request: Request
    const now: int64
    const maxRawRequests: int64
    var rawRequests: seq<RawRequest>
    var reports: ReportTable
    var retdata: bytes

    constructor (request: Request, now: int64, maxRawRequests: int64)
      ensures Contents() == View(request, now, maxRawRequests, [], map[], [])
    {
      this.request, this.now, this.maxRawRequests := request, now, maxRawRequests;
      rawRequests, reports, retdata := [], map[], [];
    }

    function Contents(): View
      reads this
    {
      View(request, now, maxRawRequests, rawRequests, reports, retdata)
    }

    method SetReturnData(data: bytes)
      modifies this
      ensures Contents() == old(Contents()).(retdata := data)
    {
      retdata := data;
    }

    method AskExternalData(ask: RawRequest)
      modifies this
      ensures Contents() == old(Contents()).(rawRequests := Ask(old(rawRequests), ask, maxRawRequests))
    {
      if |ask.calldata| > MAX_RAW_REQUEST_DATA_SIZE {
        return;
      }
      if |rawRequests| >= maxRawRequests {
        return;
      }
      rawRequests := rawRequests + [ask];
    }

    /** Fills the table of a resolve environment; a prepare environment panics. */
    method SetReports(loaded: seq<Report>) returns (r: Outcome<()>)
      requires reports == map[]
      modifies this
      ensures r.Panicked? <==> maxRawRequests != 0
      ensures Contents() == old(Contents()).(reports := if maxRawRequests != 0 then map[] else LoadReports(loaded))
    {
      if maxRawRequests != 0 {
        return Panicked;
      }
      for i := 0 to |loaded|
        invariant Contents() == old(Contents()).(reports := LoadReports(loaded[..i]))
      {
        var rawReports := loaded[i].rawReports;
        var valReports: map<ExternalID, RawReport> := map[];
        for j := 0 to |rawReports|
          invariant valReports == ByExternalID(rawReports[..j])
          invariant Contents() == old(Contents()).(reports := LoadReports(loaded[..i]))
        {
          assert rawReports[..j + 1][..j] == rawReports[..j];
          valReports := valReports[rawReports[j].externalID := rawReports[j]];
        }
        assert rawReports[..|rawReports|] == rawReports;
        assert loaded[..i + 1][..i] == loaded[..i];
        reports := reports[loaded[i].validator := valReports];
      }
      assert loaded[..|loaded|] == loaded;
      return Returned(());
    }

    function GetRawRequests(): Outcome<seq<RawRequest>>
      reads this
    {
      if maxRawRequests == 0 then Panicked else Returned(rawRequests)
    }
  }

  // ---------- what a script can see ----------

  function ExternalIDs(rawReports: seq<RawReport>): seq<ExternalID> {
    seq(|rawReports|, i requires 0 <= i < |rawReports| => rawReports[i].externalID)
  }

  lemma {:induction false} ByExternalIDFinds(rawReports: seq<RawReport>, externalID: ExternalID)
    requires Distinct(ExternalIDs(rawReports))
    ensures externalID in ByExternalID(rawReports) <==> externalID in ExternalIDs(rawReports)
    ensures forall i :: 0 <= i < |rawReports| && rawReports[i].externalID == externalID ==>
              externalID in ByExternalID(rawReports) && ByExternalID(rawReports)[externalID] == rawReports[i]
  {
    if rawReports != [] {
      var n := |rawReports| - 1;
      var before := rawReports[..n];
      assert ExternalIDs(rawReports) == ExternalIDs(before) + [rawReports[n].externalID];
      assert forall i :: 0 <= i < n ==> before[i] == rawReports[i] && ExternalIDs(before)[i] == ExternalIDs(rawReports)[i];
      ByExternalIDFinds(before, externalID);
      forall i | 0 <= i < n && rawReports[i].externalID == externalID
        ensures externalID != rawReports[n].externalID && before[i] == rawReports[i]
      {
        assert ExternalIDs(rawReports)[i] != ExternalIDs(rawReports)[n];
      }
    }
  }

  /** Of several raw reports with the same external ID the last one is found. */
  lemma {:induction false} LastRawReportIsFound(rawReports: seq<RawReport>, i: nat)
    requires i < |rawReports|
    requires forall j :: i < j < |rawReports| ==> rawReports[j].externalID != rawReports[i].externalID
    ensures rawReports[i].externalID in ByExternalID(rawReports)
    ensures ByExternalID(rawReports)[rawReports[i].externalID] == rawReports[i]
  {
    var n := |rawReports| - 1;
    if i < n {
      LastRawReportIsFound(rawReports[..n], i);
    }
  }

  /** `listed` holds exactly the reports of the table `stored`, in any order. */
  ghost predicate ListsReports(listed: seq<Report>, stored: map<Address, Report>) {
    && |listed| == |stored|
    && (forall i :: 0 <= i < |listed| ==> listed[i].validator in stored && stored[listed[i].validator] == listed[i])
    && (forall v :: v in stored ==> stored[v] in listed)
  }

  function TableOf(stored: map<Address, Report>): ReportTable {
    map v | v in stored :: ByExternalID(stored[v].rawReports)
  }

  lemma {:induction false} LoadReportsFinds(reports: seq<Report>, v: Address)
    ensures v in LoadReports(reports) <==> exists i :: 0 <= i < |reports| && reports[i].validator == v
    ensures v in LoadReports(reports) ==>
              exists i :: 0 <= i < |reports| && reports[i].validator == v
                          && LoadReports(reports)[v] == ByExternalID(reports[i].rawReports)
  {
    if reports != [] {
      var n := |reports| - 1;
      LoadReportsFinds(reports[..n], v);
      if reports[n].validator != v && v in LoadReports(reports) {
        var i :| 0 <= i < n && reports[..n][i].validator == v
                 && LoadReports(reports[..n])[v] == ByExternalID(reports[..n][i].rawReports);
        assert reports[i].validator == v;
      }
    }
  }

  /** The order in which the store hands out the reports does not matter to the script. */
  lemma LoadedTableIsStoredTable(listed: seq<Report>, stored: map<Address, Report>)
    requires ListsReports(listed, stored)
    requires forall v :: v in stored ==> stored[v].validator == v
    ensures LoadReports(listed) == TableOf(stored)
  {
    forall v
      ensures v in LoadReports(listed) <==> v in stored
      ensures v in stored ==> LoadReports(listed)[v] == ByExternalID(stored[v].rawReports)
    {
      LoadReportsFinds(listed, v);
      if v in stored {
        var i :| 0 <= i < |listed| && listed[i] == stored[v];
        assert listed[i].validator == v;
      }
    }
  }

  /** Report exactness: a script that asks for (externalID, index) gets the data and exit code
      that the validator at this index stored under this external ID, and nil with status -1 in
      every other case; the answer count is the number of stored reports. */
  lemma ScriptSeesExactlyTheReports(view: View, stored: map<Address, Report>, externalID: ExternalID, index: int64)
    requires view.reports == TableOf(stored)
    requires forall v :: v in stored ==> Distinct(ExternalIDs(stored[v].rawReports))
    ensures view.GetAnsCount() == |stored|
    ensures var (data, status) := view.GetExternalDataFull(externalID, index);
            var answered := 0 <= index < |view.request.requestedValidators| && view.request.requestedValidators[index] in stored;
            && (answered ==>
                  var rawReports := stored[view.request.requestedValidators[index]].rawReports;
                  && (forall i :: 0 <= i < |rawReports| && rawReports[i].externalID == externalID ==>
                        data == Some(rawReports[i].data) && status == rawReports[i].exitCode)
                  && (externalID !in ExternalIDs(rawReports) ==> data == None && status == -1))
            && (!answered ==> data == None && status == -1)
            && (data == None <==> status == -1)
  {
    assert TableOf(stored).Keys == stored.Keys;
    if 0 <= index < |view.request.requestedValidators| && view.request.requestedValidators[index] in stored {
      ByExternalIDFinds(stored[view.request.requestedValidators[index]].rawReports, externalID);
    }
  }

  function ShortEnough(asks: seq<RawRequest>): seq<RawRequest> {
    if asks == [] then []
    else
      var before := ShortEnough(asks[..|asks| - 1]);
      if |asks[|asks| - 1].calldata| > MAX_RAW_REQUEST_DATA_SIZE then before else before + [asks[|asks| - 1]]
  }

  /** The asks that are kept: the first maxRawRequests of those short enough. A negative limit keeps none. */
  function Kept(asks: seq<RawRequest>, maxRawRequests: int64): seq<RawRequest> {
    var short := ShortEnough(asks);
    if maxRawRequests < 0 then [] else if |short| <= maxRawRequests then short else short[..maxRawRequests]
  }

  /** The raw requests of a whole run are exactly the kept asks, in order. */
  lemma {:induction false} AskAllKeepsAPrefix(asks: seq<RawRequest>, maxRawRequests: int64)
    ensures AskAll(asks, maxRawRequests) == Kept(asks, maxRawRequests)
  {
    if asks != [] {
      AskAllKeepsAPrefix(asks[..|asks| - 1], maxRawRequests);
    }
  }
}
