/** Marshalling as the generated code does it: backwards, into a buffer of the exact size. */
module ProtoMarshal {
  import opened MachineTypes
  import opened OracleTypes
  import opened ProtoWire

  // ---------- what is written ----------

  /** Field `n` of a raw report on the wire. */
  function RawReportField(m: RawReport, n: nat): bytes {
    match n
    case 1 => VarintField(0x8, ToUint64(m.externalID))
    case 2 => VarintField(0x10, m.exitCode)
    case 3 => BytesField(0x1a, m.data)
    case _ => []
  }

  /** The fields of a raw report from number `n` on, in the order of their numbers. */
  function RawReportWire(m: RawReport, n: nat): bytes
    decreases 4 - n
  {
    if n > 3 then [] else RawReportField(m, n) + RawReportWire(m, n + 1)
  }

  function IBCInfoField(m: IBCInfo, n: nat): bytes {
    match n
    case 1 => BytesField(0xa, m.sourcePort)
    case 2 => BytesField(0x12, m.sourceChannel)
    case _ => []
  }

  function IBCInfoWire(m: IBCInfo, n: nat): bytes
    decreases 3 - n
  {
    if n > 2 then [] else IBCInfoField(m, n) + IBCInfoWire(m, n + 1)
  }

  function RawReportsField(tag: byte, list: seq<RawReport>): bytes {
    if list == [] then [] else LengthField(tag, RawReportWire(list[0], 1)) + RawReportsField(tag, list[1..])
  }

  function ReportField(m: Report, n: nat): bytes {
    match n
    case 1 => BytesField(0xa, m.validator.raw)
    case 2 => if m.inBeforeResolve then [0x10, 1] else []
    case 3 => RawReportsField(0x1a, m.rawReports)
    case _ => []
  }

  function ReportWire(m: Report, n: nat): bytes
    decreases 4 - n
  {
    if n > 3 then [] else ReportField(m, n) + ReportWire(m, n + 1)
  }

  function AddressesField(tag: byte, list: seq<Address>): bytes {
    if list == [] then [] else LengthField(tag, list[0].raw) + AddressesField(tag, list[1..])
  }

  /** The elements of a packed field, without its tag and length. */
  function Packed(ids: seq<ExternalID>): bytes {
    if ids == [] then [] else Varint(ToUint64(ids[0])) + Packed(ids[1..])
  }

  function RequestField(m: Request, n: nat): bytes {
    match n
    case 1 => VarintField(0x8, ToUint64(m.oracleScriptID))
    case 2 => BytesField(0x12, m.calldata)
    case 3 => AddressesField(0x1a, m.requestedValidators)
    case 4 => VarintField(0x20, m.minCount)
    case 5 => VarintField(0x28, ToUint64(m.requestHeight))
    case 6 => VarintField(0x30, ToUint64(m.requestTime))
    case 7 => BytesField(0x3a, m.clientID)
    case 8 => (match m.ibcInfo case None => [] case Some(info) => LengthField(0x42, IBCInfoWire(info, 1)))
    case 9 => if m.rawRequestIDs == [] then [] else LengthField(0x4a, Packed(m.rawRequestIDs))
    case _ => []
  }

  function RequestWire(m: Request, n: nat): bytes
    decreases 10 - n
  {
    if n > 9 then [] else RequestField(m, n) + RequestWire(m, n + 1)
  }

  // ---------- sizes ----------

  method RawReportSize(m: RawReport) returns (n: nat)
    ensures n == |RawReportWire(m, 1)|
  {
    hide VarintField, BytesField, Sov, ToUint64, RawReportWire;
    IntFieldSize(0x8, m.externalID);
    VarintFieldSize(0x10, m.exitCode);
    BytesFieldSize(0x1a, m.data);
    n := 0;
    if m.externalID != 0 {
      n := n + 1 + Sov(ToUint64(m.externalID));
    }
    if m.exitCode != 0 {
      n := n + 1 + Sov(m.exitCode);
    }
    var l := |m.data|;
    if l > 0 {
      n := n + 1 + l + Sov(l);
    }
    RawReportUnfolds(m);
  }

  lemma RawReportUnfolds(m: RawReport)
    ensures RawReportWire(m, 1) == RawReportField(m, 1) + (RawReportField(m, 2) + RawReportField(m, 3))
  {
    hide RawReportField;
    assert RawReportWire(m, 3) == RawReportField(m, 3);
    assert RawReportWire(m, 2) == RawReportField(m, 2) + RawReportField(m, 3);
  }

  method IBCInfoSize(m: IBCInfo) returns (n: nat)
    ensures n == |IBCInfoWire(m, 1)|
  {
    hide BytesField, Sov, IBCInfoWire;
    BytesFieldSize(0xa, m.sourcePort);
    BytesFieldSize(0x12, m.sourceChannel);
    n := 0;
    var l := |m.sourcePort|;
    if l > 0 {
      n := n + 1 + l + Sov(l);
    }
    l := |m.sourceChannel|;
    if l > 0 {
      n := n + 1 + l + Sov(l);
    }
    IBCInfoUnfolds(m);
  }

  lemma IBCInfoUnfolds(m: IBCInfo)
    ensures IBCInfoWire(m, 1) == IBCInfoField(m, 1) + IBCInfoField(m, 2)
  {
    hide IBCInfoField;
    assert IBCInfoWire(m, 2) == IBCInfoField(m, 2);
  }

  lemma {:induction false} RawReportsFieldGrows(tag: byte, list: seq<RawReport>, i: nat)
    requires i < |list|
    ensures |RawReportsField(tag, list[..i + 1])| == |RawReportsField(tag, list[..i])| + |LengthField(tag, RawReportWire(list[i], 1))|
  {
    hide RawReportWire, LengthField;
    var up, low := list[..i + 1], list[..i];
    if i > 0 {
      RawReportsFieldGrows(tag, list[1..], i - 1);
      assert up[1..] == list[1..][..i] && low[1..] == list[1..][..i - 1] && low[0] == up[0];
    }
  }

  method ReportSize(m: Report) returns (n: nat)
    ensures n == |ReportWire(m, 1)|
  {
    hide BytesField, RawReportsField, RawReportWire, LengthField, Sov, ReportWire;
    BytesFieldSize(0xa, m.validator.raw);
    n := 0;
    var l := |m.validator.raw|;
    if l > 0 {
      n := n + 1 + l + Sov(l);
    }
    if m.inBeforeResolve {
      n := n + 2;
    }
    ghost var before := n;
    NoRawReports(0x1a);
    for k := 0 to |m.rawReports|
      invariant n == before + |RawReportsField(0x1a, m.rawReports[..k])|
    {
      l := RawReportSize(m.rawReports[k]);
      n := n + 1 + l + Sov(l);
      RawReportsFieldGrows(0x1a, m.rawReports, k);
      LengthFieldSize(0x1a, RawReportWire(m.rawReports[k], 1));
    }
    assert m.rawReports[..|m.rawReports|] == m.rawReports;
    ReportUnfolds(m);
  }

  lemma NoRawReports(tag: byte)
    ensures RawReportsField(tag, []) == []
  {
  }

  lemma ReportUnfolds(m: Report)
    ensures ReportWire(m, 1) == ReportField(m, 1) + (ReportField(m, 2) + ReportField(m, 3))
  {
    hide ReportField;
    assert ReportWire(m, 3) == ReportField(m, 3);
    assert ReportWire(m, 2) == ReportField(m, 2) + ReportField(m, 3);
  }

  lemma {:induction false} AddressesFieldGrows(tag: byte, list: seq<Address>, i: nat)
    requires i < |list|
    ensures |AddressesField(tag, list[..i + 1])| == |AddressesField(tag, list[..i])| + |LengthField(tag, list[i].raw)|
  {
    hide LengthField;
    var up, low := list[..i + 1], list[..i];
    if i > 0 {
      AddressesFieldGrows(tag, list[1..], i - 1);
      assert up[1..] == list[1..][..i] && low[1..] == list[1..][..i - 1] && low[0] == up[0];
    }
  }

  lemma {:induction false} PackedGrows(ids: seq<ExternalID>, i: nat)
    requires i < |ids|
    ensures Packed(ids[..i + 1]) == Packed(ids[..i]) + Varint(ToUint64(ids[i]))
  {
    hide Varint;
    var up, low := ids[..i + 1], ids[..i];
    if i == 0 {
      assert up[1..] == [];
    } else {
      PackedGrows(ids[1..], i - 1);
      assert up[1..] == ids[1..][..i] && low[1..] == ids[1..][..i - 1] && low[0] == up[0];
    }
  }

  method RequestSize(m: Request) returns (n: nat)
    ensures n == |RequestWire(m, 1)|
  {
    hide VarintField, BytesField, LengthField, AddressesField, Packed, IBCInfoWire, Sov, ToUint64, Varint, RequestWire;
    n := 0;
    if m.oracleScriptID != 0 {
      n := n + 1 + Sov(ToUint64(m.oracleScriptID));
    }
    IntFieldSize(0x8, m.oracleScriptID);
    assert n == |RequestField(m, 1)|;
    var l := |m.calldata|;
    if l > 0 {
      n := n + 1 + l + Sov(l);
    }
    BytesFieldSize(0x12, m.calldata);
    assert n == |RequestField(m, 1)| + |RequestField(m, 2)|;
    ghost var before := n;
    NoAddresses(0x1a);
    for k := 0 to |m.requestedValidators|
      invariant n == before + |AddressesField(0x1a, m.requestedValidators[..k])|
    {
      l := |m.requestedValidators[k].raw|;
      n := n + 1 + l + Sov(l);
      AddressesFieldGrows(0x1a, m.requestedValidators, k);
      LengthFieldSize(0x1a, m.requestedValidators[k].raw);
    }
    assert m.requestedValidators[..|m.requestedValidators|] == m.requestedValidators;
    assert n == before + |RequestField(m, 3)|;
    before := n;
    if m.minCount != 0 {
      n := n + 1 + Sov(m.minCount);
    }
    VarintFieldSize(0x20, m.minCount);
    assert n == before + |RequestField(m, 4)|;
    if m.requestHeight != 0 {
      n := n + 1 + Sov(ToUint64(m.requestHeight));
    }
    IntFieldSize(0x28, m.requestHeight);
    assert n == before + |RequestField(m, 4)| + |RequestField(m, 5)|;
    if m.requestTime != 0 {
      n := n + 1 + Sov(ToUint64(m.requestTime));
    }
    IntFieldSize(0x30, m.requestTime);
    assert n == before + |RequestField(m, 4)| + |RequestField(m, 5)| + |RequestField(m, 6)|;
    before := n;
    l := |m.clientID|;
    if l > 0 {
      n := n + 1 + l + Sov(l);
    }
    BytesFieldSize(0x3a, m.clientID);
    assert n == before + |RequestField(m, 7)|;
    before := n;
    if m.ibcInfo.Some? {
      l := IBCInfoSize(m.ibcInfo.value);
      n := n + 1 + l + Sov(l);
      LengthFieldSize(0x42, IBCInfoWire(m.ibcInfo.value, 1));
    }
    assert n == before + |RequestField(m, 8)|;
    before := n;
    if |m.rawRequestIDs| > 0 {
      l := PackedSize(m.rawRequestIDs);
      n := n + 1 + Sov(l) + l;
      LengthFieldSize(0x4a, Packed(m.rawRequestIDs));
    }
    assert n == before + |RequestField(m, 9)|;
    RequestUnfolds(m);
  }

  method PackedSize(ids: seq<ExternalID>) returns (l: nat)
    ensures l == |Packed(ids)|
  {
    hide Packed, Sov, ToUint64, Varint;
    l := 0;
    NothingPacked();
    for k := 0 to |ids|
      invariant l == |Packed(ids[..k])|
    {
      SovIsVarintLength(ToUint64(ids[k]));
      PackedGrows(ids, k);
      l := l + Sov(ToUint64(ids[k]));
    }
    assert ids[..|ids|] == ids;
  }

  lemma NoAddresses(tag: byte)
    ensures AddressesField(tag, []) == []
  {
  }

  lemma NothingPacked()
    ensures Packed([]) == []
  {
  }

  lemma RequestUnfolds(m: Request)
    ensures |RequestWire(m, 1)| ==
            |RequestField(m, 1)| + |RequestField(m, 2)| + |RequestField(m, 3)| + |RequestField(m, 4)| +
            |RequestField(m, 5)| + |RequestField(m, 6)| + |RequestField(m, 7)| + |RequestField(m, 8)| + |RequestField(m, 9)|
  {
    hide RequestField;
    assert RequestWire(m, 9) == RequestField(m, 9);
    assert RequestWire(m, 8) == RequestField(m, 8) + RequestWire(m, 9);
    assert RequestWire(m, 7) == RequestField(m, 7) + RequestWire(m, 8);
    assert RequestWire(m, 6) == RequestField(m, 6) + RequestWire(m, 7);
    assert RequestWire(m, 5) == RequestField(m, 5) + RequestWire(m, 6);
    assert RequestWire(m, 4) == RequestField(m, 4) + RequestWire(m, 5);
    assert RequestWire(m, 3) == RequestField(m, 3) + RequestWire(m, 4);
    assert RequestWire(m, 2) == RequestField(m, 2) + RequestWire(m, 3);
  }

  // ---------- writing backwards ----------

  /** What writing `part` into a buffer just before position `end`, from `i` on, leaves. */
  ghost predicate Wrote(pre: bytes, now: bytes, i: nat, end: nat, part: bytes) {
    && i <= end <= |pre|
    && now == pre[..i] + part + pre[end..]
    && |part| == end - i
  }

  lemma WroteMore(pre: bytes, mid: bytes, now: bytes, j: nat, i: nat, end: nat, front: bytes, part: bytes)
    requires Wrote(pre, mid, i, end, part) && Wrote(mid, now, j, i, front)
    ensures Wrote(pre, now, j, end, front + part)
  {
    assert mid[..j] == pre[..j];
    assert mid[i..] == part + pre[end..];
  }

  lemma WroteNext(pre: bytes, now: bytes, i: nat, end: nat, part: bytes, b: byte)
    requires Wrote(pre, now, i, end, part) && end < |pre|
    ensures Wrote(pre, now[end := b], i, end + 1, part + [b])
  {
    assert pre[end..] == [pre[end]] + pre[end + 1..];
  }

  lemma WroteNothing(pre: bytes, i: nat)
    requires i <= |pre|
    ensures Wrote(pre, pre, i, i, [])
  {
  }

  method SetByte(dAtA: array<byte>, i: nat, b: byte)
    requires i < dAtA.Length
    modifies dAtA
    ensures dAtA[..] == old(dAtA[..])[i := b]
  {
    dAtA[i] := b;
  }

  method CopyBytes(dAtA: array<byte>, i: nat, b: bytes)
    requires i + |b| <= dAtA.Length
    modifies dAtA
    ensures Wrote(old(dAtA[..]), dAtA[..], i, i + |b|, b)
  {
    forall k | 0 <= k < |b| {
      dAtA[i + k] := b[k];
    }
    assert dAtA[..] == old(dAtA[..])[..i] + b + old(dAtA[..])[i + |b|..];
  }

  /** The loops that write a varint put out one byte and go on with the higher bits. */
  lemma VarintUnfolds(written: bytes, v: nat)
    ensures if v < 128 then Varint(v) == [v]
            else
              && |Varint(v)| == 1 + |Varint(v / 128)|
              && written + Varint(v) == (written + [v % 128 + 128]) + Varint(v / 128)
  {
  }

  /** encodeVarintTypes: writes a varint so that it ends at `offset`, and returns where it begins. */
  method EncodeVarint(dAtA: array<byte>, offset: nat, x: uint64) returns (base: nat)
    requires |Varint(x)| <= offset <= dAtA.Length
    modifies dAtA
    ensures Wrote(old(dAtA[..]), dAtA[..], base, offset, Varint(x))
  {
    hide Sov, Wrote, Varint;
    SovIsVarintLength(x);
    base := offset - Sov(x);
    var i, v := base, x;
    ghost var pre, written := dAtA[..], [];
    WroteNothing(pre, base);
    while v >= 128
      invariant 0 <= v
      invariant base <= i && i + |Varint(v)| == offset
      invariant written + Varint(v) == Varint(x)
      invariant Wrote(pre, dAtA[..], base, i, written)
    {
      var b: byte := v % 128 + 128;
      VarintUnfolds(written, v);
      WroteNext(pre, dAtA[..], base, i, written, b);
      SetByte(dAtA, i, b);
      written := written + [b];
      v := v / 128;
      i := i + 1;
    }
    VarintUnfolds(written, v);
    WroteNext(pre, dAtA[..], base, i, written, v);
    SetByte(dAtA, i, v);
  }

  /** The byte in front of position `i`. */
  method PutByte(dAtA: array<byte>, i: nat, b: byte) returns (j: nat)
    requires 1 <= i <= dAtA.Length
    modifies dAtA
    ensures Wrote(old(dAtA[..]), dAtA[..], j, i, [b])
  {
    j := i - 1;
    dAtA[j] := b;
    assert dAtA[..] == old(dAtA[..])[..j] + [b] + old(dAtA[..])[i..];
  }

  /** The length and tag in front of a payload that already stands at `i`. */
  method PutHeader(dAtA: array<byte>, i: nat, tag: byte, x: uint64) returns (j: nat)
    requires 1 + |Varint(x)| <= i <= dAtA.Length
    modifies dAtA
    ensures j == i - 1 - |Varint(x)|
    ensures Wrote(old(dAtA[..]), dAtA[..], j, i, [tag] + Varint(x))
  {
    hide Varint;
    j := EncodeVarint(dAtA, i, x);
    ghost var mid := dAtA[..];
    j := PutByte(dAtA, j, tag);
    WroteMore(old(dAtA[..]), mid, dAtA[..], j, i - |Varint(x)|, i, [tag], Varint(x));
  }

  // The field writers below extend `part`, which stands between position i and `end` already.

  method PutVarintField(dAtA: array<byte>, i: nat, tag: byte, x: uint64, ghost pre: bytes, ghost end: nat, ghost part: bytes)
    returns (j: nat)
    requires |VarintField(tag, x)| <= i <= dAtA.Length
    requires Wrote(pre, dAtA[..], i, end, part)
    modifies dAtA
    ensures j == i - |VarintField(tag, x)|
    ensures Wrote(pre, dAtA[..], j, end, VarintField(tag, x) + part)
  {
    hide Varint, Wrote;
    j := i;
    assert [] + part == part;
    assert x == 0 ==> VarintField(tag, x) == [];
    if x != 0 {
      ghost var mid := dAtA[..];
      j := PutHeader(dAtA, i, tag, x);
      WroteMore(pre, mid, dAtA[..], j, i, end, VarintField(tag, x), part);
    }
  }

  method PutLengthField(dAtA: array<byte>, i: nat, tag: byte, b: bytes, ghost pre: bytes, ghost end: nat, ghost part: bytes)
    returns (j: nat)
    requires |LengthField(tag, b)| <= i <= dAtA.Length <= MAX_INT64
    requires Wrote(pre, dAtA[..], i, end, part)
    modifies dAtA
    ensures j == i - |LengthField(tag, b)|
    ensures Wrote(pre, dAtA[..], j, end, LengthField(tag, b) + part)
  {
    hide Varint, Wrote;
    ghost var s0 := dAtA[..];
    CopyBytes(dAtA, i - |b|, b);
    ghost var s1 := dAtA[..];
    j := PutHeader(dAtA, i - |b|, tag, |b|);
    WroteMore(s0, s1, dAtA[..], j, i - |b|, i, [tag] + Varint(|b|), b);
    WroteMore(pre, s0, dAtA[..], j, i, end, LengthField(tag, b), part);
  }

  method PutBytesField(dAtA: array<byte>, i: nat, tag: byte, b: bytes, ghost pre: bytes, ghost end: nat, ghost part: bytes)
    returns (j: nat)
    requires |BytesField(tag, b)| <= i <= dAtA.Length <= MAX_INT64
    requires Wrote(pre, dAtA[..], i, end, part)
    modifies dAtA
    ensures j == i - |BytesField(tag, b)|
    ensures Wrote(pre, dAtA[..], j, end, BytesField(tag, b) + part)
  {
    hide Wrote, LengthField;
    j := i;
    assert [] + part == part;
    if |b| > 0 {
      j := PutLengthField(dAtA, i, tag, b, pre, end, part);
    }
  }

  /** Completes a length-delimited field whose payload has just been written in front of `i`. */
  method PutNested(dAtA: array<byte>, i: nat, tag: byte, size: nat, ghost payload: bytes, ghost mid: bytes,
                   ghost pre: bytes, ghost end: nat, ghost part: bytes)
    returns (j: nat)
    requires |LengthField(tag, payload)| <= i <= dAtA.Length <= MAX_INT64
    requires size == |payload|
    requires Wrote(pre, mid, i, end, part) && Wrote(mid, dAtA[..], i - size, i, payload)
    modifies dAtA
    ensures j == i - |LengthField(tag, payload)|
    ensures Wrote(pre, dAtA[..], j, end, LengthField(tag, payload) + part)
  {
    hide Varint, Wrote;
    ghost var s1 := dAtA[..];
    j := PutHeader(dAtA, i - size, tag, size);
    WroteMore(mid, s1, dAtA[..], j, i - size, i, [tag] + Varint(size), payload);
    WroteMore(pre, mid, dAtA[..], j, i, end, LengthField(tag, payload), part);
  }

  // ---------- MarshalToSizedBuffer ----------

  method MarshalRawReport(m: RawReport, dAtA: array<byte>, end: nat) returns (n: nat)
    requires |RawReportWire(m, 1)| <= end <= dAtA.Length <= MAX_INT64
    modifies dAtA
    ensures n == |RawReportWire(m, 1)|
    ensures Wrote(old(dAtA[..]), dAtA[..], end - n, end, RawReportWire(m, 1))
  {
    hide Wrote, VarintField, BytesField, ToUint64;
    ghost var pre := dAtA[..];
    var i := end;
    WroteNothing(pre, end);
    i := PutBytesField(dAtA, i, 0x1a, m.data, pre, end, RawReportWire(m, 4));
    i := PutVarintField(dAtA, i, 0x10, m.exitCode, pre, end, RawReportWire(m, 3));
    i := PutVarintField(dAtA, i, 0x8, ToUint64(m.externalID), pre, end, RawReportWire(m, 2));
    n := end - i;
  }

  method MarshalIBCInfo(m: IBCInfo, dAtA: array<byte>, end: nat) returns (n: nat)
    requires |IBCInfoWire(m, 1)| <= end <= dAtA.Length <= MAX_INT64
    modifies dAtA
    ensures n == |IBCInfoWire(m, 1)|
    ensures Wrote(old(dAtA[..]), dAtA[..], end - n, end, IBCInfoWire(m, 1))
  {
    hide Wrote, BytesField;
    ghost var pre := dAtA[..];
    var i := end;
    WroteNothing(pre, end);
    i := PutBytesField(dAtA, i, 0x12, m.sourceChannel, pre, end, IBCInfoWire(m, 3));
    i := PutBytesField(dAtA, i, 0xa, m.sourcePort, pre, end, IBCInfoWire(m, 2));
    n := end - i;
  }

  method MarshalReport(m: Report, dAtA: array<byte>, end: nat) returns (n: nat)
    requires |ReportWire(m, 1)| <= end <= dAtA.Length <= MAX_INT64
    modifies dAtA
    ensures n == |ReportWire(m, 1)|
    ensures Wrote(old(dAtA[..]), dAtA[..], end - n, end, ReportWire(m, 1))
  {
    hide Wrote, BytesField, LengthField, RawReportsField, RawReportWire;
    ReportUnfolds(m);
    ghost var pre := dAtA[..];
    var i := end;
    WroteNothing(pre, end);
    var k := |m.rawReports|;
    NoRawReports(0x1a);
    assert m.rawReports[k..] == [];
    while k > 0
      invariant 0 <= k <= |m.rawReports|
      invariant i == end - |RawReportsField(0x1a, m.rawReports[k..])|
      invariant Wrote(pre, dAtA[..], i, end, RawReportsField(0x1a, m.rawReports[k..]))
    {
      k := k - 1;
      var raw := m.rawReports[k];
      RawReportsFieldFrom(0x1a, m.rawReports, k);
      ghost var mid := dAtA[..];
      LengthFieldSize(0x1a, RawReportWire(raw, 1));
      var size := MarshalRawReport(raw, dAtA, i);
      i := PutNested(dAtA, i, 0x1a, size, RawReportWire(raw, 1), mid, pre, end, RawReportsField(0x1a, m.rawReports[k + 1..]));
    }
    assert m.rawReports[0..] == m.rawReports;
    assert RawReportsField(0x1a, m.rawReports) == ReportWire(m, 3);
    if m.inBeforeResolve {
      ghost var mid := dAtA[..];
      i := PutByte(dAtA, i, 1);
      ghost var s1 := dAtA[..];
      i := PutByte(dAtA, i, 0x10);
      WroteMore(mid, s1, dAtA[..], i, i + 1, i + 2, [0x10], [1]);
      WroteMore(pre, mid, dAtA[..], i, i + 2, end, [0x10, 1], ReportWire(m, 3));
    }
    assert ReportWire(m, 2) == ReportField(m, 2) + ReportWire(m, 3);
    assert [] + ReportWire(m, 3) == ReportWire(m, 3);
    i := PutBytesField(dAtA, i, 0xa, m.validator.raw, pre, end, ReportWire(m, 2));
    n := end - i;
  }

  /** The entries from `k` on are the field of entry `k` and those behind it; none is longer than all. */
  lemma {:induction false} RawReportsFieldFrom(tag: byte, list: seq<RawReport>, k: nat)
    requires k < |list|
    ensures RawReportsField(tag, list[k..]) == LengthField(tag, RawReportWire(list[k], 1)) + RawReportsField(tag, list[k + 1..])
    ensures |RawReportsField(tag, list[k..])| <= |RawReportsField(tag, list)|
  {
    hide RawReportWire, LengthField;
    assert list[k..][1..] == list[k + 1..];
    if k > 0 {
      RawReportsFieldFrom(tag, list, k - 1);
      assert list[k - 1..][1..] == list[k..];
    } else {
      assert list[0..] == list;
    }
  }

  lemma {:induction false} AddressesFieldFrom(tag: byte, list: seq<Address>, k: nat)
    requires k < |list|
    ensures AddressesField(tag, list[k..]) == LengthField(tag, list[k].raw) + AddressesField(tag, list[k + 1..])
    ensures |AddressesField(tag, list[k..])| <= |AddressesField(tag, list)|
  {
    hide LengthField;
    assert list[k..][1..] == list[k + 1..];
    if k > 0 {
      AddressesFieldFrom(tag, list, k - 1);
      assert list[k - 1..][1..] == list[k..];
    } else {
      assert list[0..] == list;
    }
  }

  method PutAddresses(dAtA: array<byte>, end: nat, tag: byte, list: seq<Address>, ghost pre: bytes, ghost top: nat, ghost part: bytes)
    returns (i: nat)
    requires |AddressesField(tag, list)| <= end <= dAtA.Length <= MAX_INT64
    requires Wrote(pre, dAtA[..], end, top, part)
    modifies dAtA
    ensures i == end - |AddressesField(tag, list)|
    ensures Wrote(pre, dAtA[..], i, top, AddressesField(tag, list) + part)
  {
    hide Wrote, LengthField, AddressesField;
    i := end;
    var k := |list|;
    NoAddresses(tag);
    assert list[k..] == [];
    assert [] + part == part;
    while k > 0
      invariant 0 <= k <= |list|
      invariant i == end - |AddressesField(tag, list[k..])|
      invariant Wrote(pre, dAtA[..], i, top, AddressesField(tag, list[k..]) + part)
    {
      k := k - 1;
      AddressesFieldFrom(tag, list, k);
      i := PutLengthField(dAtA, i, tag, list[k].raw, pre, top, AddressesField(tag, list[k + 1..]) + part);
      assert AddressesField(tag, list[k..]) + part == LengthField(tag, list[k].raw) + (AddressesField(tag, list[k + 1..]) + part);
    }
    assert list[0..] == list;
  }

  /** The packed elements, written forwards into a scratch buffer of ten bytes for each. */
  method PackIDs(ids: seq<ExternalID>) returns (buffer: array<byte>, j: nat)
    ensures fresh(buffer) && j <= buffer.Length && buffer[..j] == Packed(ids)
  {
    hide Packed;
    buffer := new byte[|ids| * 10];
    j := 0;
    NothingPacked();
    for k := 0 to |ids|
      invariant j <= 10 * k && buffer[..j] == Packed(ids[..k])
    {
      PackedGrows(ids, k);
      j := AppendVarint(buffer, j, ToUint64(ids[k]));
    }
    assert ids[..|ids|] == ids;
  }

  method AppendVarint(buffer: array<byte>, start: nat, x: uint64) returns (j: nat)
    requires start + 10 <= buffer.Length
    modifies buffer
    ensures start <= j <= start + 10
    ensures buffer[..j] == old(buffer[..start]) + Varint(x)
  {
    hide Wrote, Varint;
    j := start;
    var num := x;
    VarintFitsTenBytes(x);
    ghost var pre, written := buffer[..], [];
    WroteNothing(pre, start);
    VarintUnfolds([], x);
    while num >= 128
      invariant 0 <= num
      invariant start <= j && j + |Varint(num)| == start + |Varint(x)|
      invariant written + Varint(num) == Varint(x)
      invariant Wrote(pre, buffer[..], start, j, written)
    {
      var b: byte := num % 128 + 128;
      VarintUnfolds(written, num);
      WroteNext(pre, buffer[..], start, j, written, b);
      SetByte(buffer, j, b);
      written := written + [b];
      num := num / 128;
      j := j + 1;
    }
    VarintUnfolds(written, num);
    WroteNext(pre, buffer[..], start, j, written, num);
    SetByte(buffer, j, num);
    j := j + 1;
    WroteUpTo(pre, buffer[..], start, j, Varint(x));
  }

  lemma WroteUpTo(pre: bytes, now: bytes, i: nat, end: nat, part: bytes)
    requires Wrote(pre, now, i, end, part)
    ensures i <= end <= |pre| == |now| && now[..end] == pre[..i] + part
  {
  }

  method PutRawRequestIDs(m: Request, dAtA: array<byte>, i: nat, ghost pre: bytes, ghost end: nat) returns (j: nat)
    requires |RequestField(m, 9)| <= i <= dAtA.Length <= MAX_INT64
    requires Wrote(pre, dAtA[..], i, end, [])
    modifies dAtA
    ensures j == i - |RequestField(m, 9)|
    ensures Wrote(pre, dAtA[..], j, end, RequestField(m, 9))
  {
    hide Wrote, LengthField, Packed;
    j := i;
    if |m.rawRequestIDs| > 0 {
      var packed, j1 := PackIDs(m.rawRequestIDs);
      j := PutLengthField(dAtA, i, 0x4a, packed[..j1], pre, end, []);
      assert RequestField(m, 9) + [] == RequestField(m, 9);
    }
  }

  method PutIBCInfo(m: Request, dAtA: array<byte>, i: nat, ghost pre: bytes, ghost end: nat) returns (j: nat)
    requires |RequestField(m, 8)| <= i <= dAtA.Length <= MAX_INT64
    requires Wrote(pre, dAtA[..], i, end, RequestWire(m, 9))
    modifies dAtA
    ensures j == i - |RequestField(m, 8)|
    ensures Wrote(pre, dAtA[..], j, end, RequestField(m, 8) + RequestWire(m, 9))
  {
    hide Wrote, LengthField, IBCInfoWire, RequestWire;
    j := i;
    assert [] + RequestWire(m, 9) == RequestWire(m, 9);
    if m.ibcInfo.Some? {
      ghost var mid, payload := dAtA[..], IBCInfoWire(m.ibcInfo.value, 1);
      LengthFieldSize(0x42, payload);
      var size := MarshalIBCInfo(m.ibcInfo.value, dAtA, i);
      j := PutNested(dAtA, i, 0x42, size, payload, mid, pre, end, RequestWire(m, 9));
    }
  }

  method MarshalRequest(m: Request, dAtA: array<byte>, end: nat) returns (n: nat)
    requires |RequestWire(m, 1)| <= end <= dAtA.Length <= MAX_INT64
    modifies dAtA
    ensures n == |RequestWire(m, 1)|
    ensures Wrote(old(dAtA[..]), dAtA[..], end - n, end, RequestWire(m, 1))
  {
    hide Wrote, VarintField, BytesField, LengthField, AddressesField, Packed, IBCInfoWire, ToUint64, RequestWire;
    RequestUnfolds(m);
    ghost var pre := dAtA[..];
    var i := end;
    WroteNothing(pre, end);
    RequestStep(m, 9);
    i := PutRawRequestIDs(m, dAtA, i, pre, end);
    RequestStep(m, 8);
    i := PutIBCInfo(m, dAtA, i, pre, end);
    RequestStep(m, 7);
    i := PutBytesField(dAtA, i, 0x3a, m.clientID, pre, end, RequestWire(m, 8));
    RequestStep(m, 6);
    i := PutVarintField(dAtA, i, 0x30, ToUint64(m.requestTime), pre, end, RequestWire(m, 7));
    RequestStep(m, 5);
    i := PutVarintField(dAtA, i, 0x28, ToUint64(m.requestHeight), pre, end, RequestWire(m, 6));
    RequestStep(m, 4);
    i := PutVarintField(dAtA, i, 0x20, m.minCount, pre, end, RequestWire(m, 5));
    RequestStep(m, 3);
    i := PutAddresses(dAtA, i, 0x1a, m.requestedValidators, pre, end, RequestWire(m, 4));
    RequestStep(m, 2);
    i := PutBytesField(dAtA, i, 0x12, m.calldata, pre, end, RequestWire(m, 3));
    RequestStep(m, 1);
    i := PutVarintField(dAtA, i, 0x8, ToUint64(m.oracleScriptID), pre, end, RequestWire(m, 2));
    n := end - i;
  }

  lemma RequestStep(m: Request, n: nat)
    requires 1 <= n <= 9
    ensures RequestWire(m, n) == RequestField(m, n) + RequestWire(m, n + 1)
    ensures n == 9 ==> RequestWire(m, n + 1) == [] && RequestWire(m, n) == RequestField(m, n)
    ensures RequestField(m, n) == [] ==> RequestWire(m, n) == RequestWire(m, n + 1)
    ensures |RequestWire(m, n)| <= |RequestWire(m, 1)|
    decreases n
  {
    hide RequestField;
    if n > 1 {
      RequestStep(m, n - 1);
    }
  }

  // ---------- Marshal ----------

  method RawReportMarshal(m: RawReport) returns (b: bytes)
    requires |RawReportWire(m, 1)| <= MAX_INT64
    ensures b == RawReportWire(m, 1)
  {
    var size := RawReportSize(m);
    var dAtA := new byte[size];
    var n := MarshalRawReport(m, dAtA, size);
    b := dAtA[..n];
  }

  method ReportMarshal(m: Report) returns (b: bytes)
    requires |ReportWire(m, 1)| <= MAX_INT64
    ensures b == ReportWire(m, 1)
  {
    var size := ReportSize(m);
    var dAtA := new byte[size];
    var n := MarshalReport(m, dAtA, size);
    b := dAtA[..n];
  }

  method RequestMarshal(m: Request) returns (b: bytes)
    requires |RequestWire(m, 1)| <= MAX_INT64
    ensures b == RequestWire(m, 1)
  {
    var size := RequestSize(m);
    var dAtA := new byte[size];
    var n := MarshalRequest(m, dAtA, size);
    b := dAtA[..n];
  }
}
