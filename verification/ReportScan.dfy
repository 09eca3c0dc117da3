/** The reports of one request, read from the byte-keyed store. */
module OracleReportScan {
  import opened MachineTypes
  import opened OracleTypes
  import opened ByteStore
  import opened ExecutionEnvironment
  import opened OracleExport
  import opened OracleInvariants

  /** The records of reports to request `id` are exactly the reports of `stored`, each under its own
      validator. */
  ghost predicate HoldsReports(typed: map<Key, Record>, id: int64, stored: map<Address, Report>) {
    && (forall v :: v in stored ==> stored[v].validator == v)
    && (forall v: bytes :: ReportOf(id, v) in typed <==> Address(v) in stored)
    && (forall v: bytes :: Address(v) in stored ==> typed[ReportOf(id, v)] == ReportRecord(stored[Address(v)]))
  }

  /** Each scanned key belongs to the stored report of the validator in it. */
  lemma KeyHoldsReport(raw: Store, typed: map<Key, Record>, id: int64, stored: map<Address, Report>, keys: seq<bytes>, b: bytes)
    requires Represents(raw, typed) && HoldsReports(typed, id, stored) && IsScan(raw, ReportPrefix(id), keys) && b in keys
    ensures b in raw && raw[b].ReportRecord?
    ensures var v := raw[b].report.validator;
            v in stored && raw[b].report == stored[v] && b == KeyBytes(ReportOf(id, v.raw))
  {
    ReportScanVisitsOneRequest(raw, typed, id, keys);
    hide KeyBytes, IsScan;
    var v :| ReportOf(id, v) in typed && b == KeyBytes(ReportOf(id, v));
    assert Address(v) in stored;
  }

  lemma ScanMeetsReport(raw: Store, typed: map<Key, Record>, id: int64, stored: map<Address, Report>, keys: seq<bytes>, v: Address)
    requires Represents(raw, typed) && HoldsReports(typed, id, stored) && IsScan(raw, ReportPrefix(id), keys) && v in stored
    ensures var b := KeyBytes(ReportOf(id, v.raw)); b in keys && b in raw && raw[b] == ReportRecord(stored[v])
  {
    ReportScanVisitsOneRequest(raw, typed, id, keys);
    hide KeyBytes, IsScan;
    assert Address(v.raw) == v && ReportOf(id, v.raw) in typed;
  }

  lemma ScannedKeysDiffer(raw: Store, prefix: bytes, keys: seq<bytes>)
    requires IsScan(raw, prefix, keys)
    ensures Distinct(keys)
  {
    forall i, j | 0 <= i < j < |keys| ensures keys[i] != keys[j] {
      LessIsIrreflexive(keys[i]);
    }
  }

  /** The bridge to the keeper's table: the scanned values list the reports of the request. */
  lemma ScanListsReports(raw: Store, typed: map<Key, Record>, id: int64, stored: map<Address, Report>, keys: seq<bytes>, reports: seq<Report>)
    requires Represents(raw, typed) && HoldsReports(typed, id, stored) && IsScan(raw, ReportPrefix(id), keys)
    requires |reports| == |keys|
    requires forall i :: 0 <= i < |keys| ==> keys[i] in raw && raw[keys[i]] == ReportRecord(reports[i])
    ensures ListsReports(reports, stored)
  {
    assert forall v :: v in stored ==> stored[v].validator == v;
    hide KeyBytes, Represents, HoldsReports, IsScan, ListsReports;
    ScannedKeysDiffer(raw, ReportPrefix(id), keys);
    forall v | v in stored ensures exists i :: 0 <= i < |reports| && reports[i] == stored[v] {
      ScanMeetsReport(raw, typed, id, stored, keys, v);
      var i :| 0 <= i < |keys| && keys[i] == KeyBytes(ReportOf(id, v.raw));
      assert reports[i] == stored[v];
    }
    forall i | 0 <= i < |reports|
      ensures reports[i].validator in stored && stored[reports[i].validator] == reports[i]
      ensures keys[i] == KeyBytes(ReportOf(id, reports[i].validator.raw))
    {
      assert keys[i] in keys;
      KeyHoldsReport(raw, typed, id, stored, keys, keys[i]);
    }
    EachOnce(reports, stored);
  }

  /** GetReports: one scan under the prefix of the request lists every report of it exactly once. */
  method GetReports(raw: Store, keys: seq<bytes>, ghost typed: map<Key, Record>, ghost id: int64, ghost stored: map<Address, Report>)
    returns (reports: seq<Report>)
    requires Represents(raw, typed) && HoldsReports(typed, id, stored) && IsScan(raw, ReportPrefix(id), keys)
    ensures ListsReports(reports, stored)
  {
    hide KeyBytes, Represents, HoldsReports, IsScan, ListsReports;
    reports := [];
    for i := 0 to |keys|
      invariant |reports| == i
      invariant forall j :: 0 <= j < i ==> keys[j] in raw && raw[keys[j]] == ReportRecord(reports[j])
    {
      KeyHoldsReport(raw, typed, id, stored, keys, keys[i]);
      reports := reports + [raw[keys[i]].report];
    }
    ScanListsReports(raw, typed, id, stored, keys, reports);
  }

  /** A list with one entry for each validator of a table is as long as the table. */
  lemma EachOnce(reports: seq<Report>, stored: map<Address, Report>)
    requires forall i :: 0 <= i < |reports| ==> reports[i].validator in stored && stored[reports[i].validator] == reports[i]
    requires forall i, j :: 0 <= i < j < |reports| ==> reports[i].validator != reports[j].validator
    requires forall v :: v in stored ==> exists i :: 0 <= i < |reports| && reports[i] == stored[v]
    requires forall v :: v in stored ==> stored[v].validator == v
    ensures ListsReports(reports, stored)
  {
    var validators := seq(|reports|, i requires 0 <= i < |reports| => reports[i].validator);
    DistinctCount(validators);
    forall v | v in stored ensures v in validators {
      var i :| 0 <= i < |reports| && reports[i] == stored[v];
      assert validators[i] == v;
    }
    assert (set v | v in validators) == stored.Keys;
  }
}
