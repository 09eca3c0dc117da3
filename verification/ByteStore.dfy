/** The oracle's key-value store: byte keys, and the typed records behind them. */
module ByteStore {
  import opened MachineTypes
  import opened NaturalPowers
  import opened Obi
  import B = ObiBytes

  /** One constructor for each kind of record in the store. */
  datatype Key =
    | RequestCount
    | RequestLastExpired
    | PendingList
    | DataSourceCount
    | OracleScriptCount
    | RequestOf(id: int64)
    | ReportOf(id: int64, validator: bytes)
    | DataSourceOf(id: int64)
    | OracleScriptOf(id: int64)
    | ReporterOf(validator: bytes, reporter: bytes)
    | ReportInfoOf(validator: bytes)
    | ResultOf(id: int64)

  function Ascii(s: string): bytes {
    seq(|s|, i requires 0 <= i < |s| => s[i] as int % 256)
  }

  /** sdk.Uint64ToBigEndian(uint64(id)). */
  function IdBytes(id: int64): (b: bytes)
    ensures |b| == 8
  {
    BigEndian(ToUint64(id), 8)
  }

  function KeyBytes(k: Key): bytes {
    match k
    case RequestCount => [0x00] + Ascii("RequestCount")
    case RequestLastExpired => [0x00] + Ascii("RequestLastExpired")
    case PendingList => [0x00] + Ascii("PendingList")
    case DataSourceCount => [0x00] + Ascii("DataSourceCount")
    case OracleScriptCount => [0x00] + Ascii("OracleScriptCount")
    case RequestOf(id) => [0x01] + IdBytes(id)
    case ReportOf(id, validator) => [0x02] + IdBytes(id) + validator
    case DataSourceOf(id) => [0x03] + IdBytes(id)
    case OracleScriptOf(id) => [0x04] + IdBytes(id)
    case ReporterOf(validator, reporter) => [0x05] + validator + reporter
    case ReportInfoOf(validator) => [0x06] + validator
    case ResultOf(id) => [0xFF] + IdBytes(id)
  }

  /** Byte i of an identifier in a key: the most significant byte stands first. */
  lemma IdByte(id: int64, i: nat)
    requires i < 8
    ensures Pow(256, 7 - i) > 0 && IdBytes(id)[i] == ToUint64(id) / Pow(256, 7 - i) % 256
  {
    B.BigEndianByte(ToUint64(id), 8, i);
    hide BigEndian, Pow, ToUint64;
  }

  /** Validator addresses of the ambiguous key, which joins two of them, have their fixed length. */
  predicate WellFormed(k: Key) {
    k.ReporterOf? ==> |k.validator| == 20
  }

  lemma SameIdBytes(a: int64, b: int64)
    requires IdBytes(a) == IdBytes(b)
    ensures a == b
  {
    WidthIsPower(W64);
    hide BigEndian, Pow;
    BigEndianInverse(ToUint64(a), 8);
    BigEndianInverse(ToUint64(b), 8);
  }

  predicate IsGlobal(k: Key) {
    k.RequestCount? || k.RequestLastExpired? || k.PendingList? || k.DataSourceCount? || k.OracleScriptCount?
  }

  lemma GlobalKeysDiffer(k: Key, l: Key)
    requires IsGlobal(k) && IsGlobal(l) && KeyBytes(k) == KeyBytes(l)
    ensures k == l
  {
    assert |KeyBytes(RequestCount)| == 13 && |KeyBytes(RequestLastExpired)| == 19 && |KeyBytes(PendingList)| == 12;
    assert |KeyBytes(DataSourceCount)| == 16 && |KeyBytes(OracleScriptCount)| == 18;
  }

  lemma FirstByteTellsKind(k: Key)
    ensures KeyBytes(k) != []
    ensures KeyBytes(k)[0] == match k
                              case RequestOf(_) => 1
                              case ReportOf(_, _) => 2
                              case DataSourceOf(_) => 3
                              case OracleScriptOf(_) => 4
                              case ReporterOf(_, _) => 5
                              case ReportInfoOf(_) => 6
                              case ResultOf(_) => 255
                              case _ => 0
  {}

  /** Different records never share a key. */
  lemma KeysAreDistinct(k: Key, l: Key)
    requires WellFormed(k) && WellFormed(l) && KeyBytes(k) == KeyBytes(l)
    ensures k == l
  {
    hide IdBytes, Ascii;
    FirstByteTellsKind(k);
    FirstByteTellsKind(l);
    match k
    case RequestOf(id) =>
      SameLengthSplit([0x01], IdBytes(id), [0x01], IdBytes(l.id));
      SameIdBytes(id, l.id);
    case ReportOf(id, v) =>
      SameLengthSplit([0x02] + IdBytes(id), v, [0x02] + IdBytes(l.id), l.validator);
      SameLengthSplit([0x02], IdBytes(id), [0x02], IdBytes(l.id));
      SameIdBytes(id, l.id);
    case DataSourceOf(id) =>
      SameLengthSplit([0x03], IdBytes(id), [0x03], IdBytes(l.id));
      SameIdBytes(id, l.id);
    case OracleScriptOf(id) =>
      SameLengthSplit([0x04], IdBytes(id), [0x04], IdBytes(l.id));
      SameIdBytes(id, l.id);
    case ReporterOf(v, r) =>
      SameLengthSplit([0x05] + v, r, [0x05] + l.validator, l.reporter);
      SameLengthSplit([0x05], v, [0x05], l.validator);
    case ReportInfoOf(v) => SameLengthSplit([0x06], v, [0x06], l.validator);
    case ResultOf(id) =>
      SameLengthSplit([0xFF], IdBytes(id), [0xFF], IdBytes(l.id));
      SameIdBytes(id, l.id);
    case _ => GlobalKeysDiffer(k, l);
  }

  /** Two reporter keys with the same bytes belong to the same record if and only if their validator
      parts have the same length: the key joins two addresses without a mark between them. */
  lemma ReporterKeysNeedFixedLength(v: bytes, r: bytes, w: bytes, q: bytes)
    requires KeyBytes(ReporterOf(v, r)) == KeyBytes(ReporterOf(w, q))
    ensures ReporterOf(v, r) == ReporterOf(w, q) <==> |v| == |w|
  {
    if |v| == |w| {
      SameLengthSplit([0x05] + v, r, [0x05] + w, q);
      SameLengthSplit([0x05], v, [0x05], w);
    }
  }

  /** Such keys exist for any two lengths: moving the first byte of the reporter to the validator
      leaves the key as it is. */
  lemma ReporterKeysShift(v: bytes, r: bytes)
    requires r != []
    ensures KeyBytes(ReporterOf(v, r)) == KeyBytes(ReporterOf(v + [r[0]], r[1..]))
  {
    assert [0x05] + v + r == [0x05] + (v + [r[0]]) + r[1..];
  }

  // ---------- the byte store refines the typed store ----------

  // The values stay as they are on both sides, of any type V.

  ghost predicate AllWellFormed<V>(typed: map<Key, V>) {
    forall k :: k in typed ==> WellFormed(k)
  }

  /** `raw` holds exactly the records of `typed`, each under its key. */
  ghost predicate Represents<V>(raw: map<bytes, V>, typed: map<Key, V>) {
    && AllWellFormed(typed)
    && (forall k :: k in typed ==> KeyBytes(k) in raw && raw[KeyBytes(k)] == typed[k])
    && (forall b :: b in raw ==> exists k :: k in typed && KeyBytes(k) == b)
  }

  lemma HasRefines<V>(raw: map<bytes, V>, typed: map<Key, V>, k: Key)
    requires Represents(raw, typed) && WellFormed(k)
    ensures KeyBytes(k) in raw <==> k in typed
  {
    if KeyBytes(k) in raw {
      var l :| l in typed && KeyBytes(l) == KeyBytes(k);
      KeysAreDistinct(k, l);
    }
  }

  lemma SetRefines<V>(raw: map<bytes, V>, typed: map<Key, V>, k: Key, value: V)
    requires Represents(raw, typed) && WellFormed(k)
    ensures Represents(raw[KeyBytes(k) := value], typed[k := value])
  {
    hide KeyBytes;
    var raw1, typed1 := raw[KeyBytes(k) := value], typed[k := value];
    forall l | l in typed1 ensures KeyBytes(l) in raw1 && raw1[KeyBytes(l)] == typed1[l] {
      if KeyBytes(l) == KeyBytes(k) {
        KeysAreDistinct(k, l);
      }
    }
    forall b | b in raw1 ensures exists l :: l in typed1 && KeyBytes(l) == b {
      if b == KeyBytes(k) {
        assert k in typed1;
      } else {
        var l :| l in typed && KeyBytes(l) == b;
        assert l in typed1;
      }
    }
  }

  lemma DeleteRefines<V>(raw: map<bytes, V>, typed: map<Key, V>, k: Key)
    requires Represents(raw, typed) && WellFormed(k)
    ensures Represents(raw - {KeyBytes(k)}, typed - {k})
  {
    hide KeyBytes;
    var raw1, typed1 := raw - {KeyBytes(k)}, typed - {k};
    forall l | l in typed1 ensures KeyBytes(l) in raw1 && raw1[KeyBytes(l)] == typed1[l] {
      if KeyBytes(l) == KeyBytes(k) {
        KeysAreDistinct(k, l);
      }
    }
    forall b | b in raw1 ensures exists l :: l in typed1 && KeyBytes(l) == b {
      var l :| l in typed && KeyBytes(l) == b;
      assert l in typed1;
    }
  }

  // ---------- order ----------

  /** The byte order of the store's iterators. */
  predicate Less(a: bytes, b: bytes) {
    b != [] && (a == [] || a[0] < b[0] || (a[0] == b[0] && Less(a[1..], b[1..])))
  }

  lemma {:induction false} LessAfterPrefix(prefix: bytes, a: bytes, b: bytes)
    ensures Less(prefix + a, prefix + b) <==> Less(a, b)
  {
    if prefix == [] {
      assert prefix + a == a && prefix + b == b;
    } else {
      assert (prefix + a)[1..] == prefix[1..] + a && (prefix + b)[1..] == prefix[1..] + b;
      LessAfterPrefix(prefix[1..], a, b);
    }
  }

  lemma {:induction false} LessBeforeSuffix(a: bytes, b: bytes, c: bytes, d: bytes)
    requires |a| == |b| && Less(a, b)
    ensures Less(a + c, b + d)
  {
    assert (a + c)[1..] == a[1..] + c && (b + d)[1..] == b[1..] + d;
    if a[0] == b[0] {
      LessBeforeSuffix(a[1..], b[1..], c, d);
    }
  }

  lemma {:induction false} LessIsIrreflexive(a: bytes)
    ensures !Less(a, a)
  {
    if a != [] {
      LessIsIrreflexive(a[1..]);
    }
  }

  lemma {:induction false} LessIsAsymmetric(a: bytes, b: bytes)
    requires Less(a, b)
    ensures !Less(b, a)
  {
    if a != [] && a[0] == b[0] {
      LessIsAsymmetric(a[1..], b[1..]);
    }
  }

  /** Big-endian encodings of one size sort like the numbers. */
  lemma {:induction false} BigEndianKeepsOrder(n: nat, m: nat, size: nat)
    requires n < m < Pow(256, size)
    ensures Less(BigEndian(n, size), BigEndian(m, size))
  {
    if size > 0 {
      var a, b := BigEndian(n / 256, size - 1), BigEndian(m / 256, size - 1);
      if n / 256 < m / 256 {
        BigEndianKeepsOrder(n / 256, m / 256, size - 1);
        LessBeforeSuffix(a, b, [n % 256], [m % 256]);
      } else {
        LessAfterPrefix(a, [n % 256], [m % 256]);
      }
    }
  }

  // ---------- prefix scans ----------

  /** What an iterator over a prefix delivers: the stored keys with that prefix, in ascending order. */
  ghost predicate IsScan<V>(raw: map<bytes, V>, prefix: bytes, keys: seq<bytes>) {
    && (forall i, j :: 0 <= i < j < |keys| ==> Less(keys[i], keys[j]))
    && (forall b :: b in keys <==> b in raw && prefix <= b)
  }

  /** The kinds of records that are counted by an identifier. */
  datatype Kind = Requests | DataSources | OracleScripts | Results

  function KindPrefix(kind: Kind): byte {
    match kind
    case Requests => 0x01
    case DataSources => 0x03
    case OracleScripts => 0x04
    case Results => 0xFF
  }

  function KeyOf(kind: Kind, id: int64): Key {
    match kind
    case Requests => RequestOf(id)
    case DataSources => DataSourceOf(id)
    case OracleScripts => OracleScriptOf(id)
    case Results => ResultOf(id)
  }

  /** The identifier in a key, as GetAllResults reads it: the bytes after the first. */
  function IdIn(key: bytes): int64
    requires |key| >= 1
  {
    ToInt64(FromBigEndian(key[1..]))
  }

  lemma IdInKey(kind: Kind, id: int64)
    ensures KeyBytes(KeyOf(kind, id)) == [KindPrefix(kind)] + IdBytes(id)
    ensures IdIn(KeyBytes(KeyOf(kind, id))) == id
  {
    WidthIsPower(W64);
    hide BigEndian, FromBigEndian, Pow;
    BigEndianInverse(ToUint64(id), 8);
    assert ([KindPrefix(kind)] + IdBytes(id))[1..] == IdBytes(id);
  }

  lemma KeyWithPrefix<V>(typed: map<Key, V>, kind: Kind, k: Key)
    requires k in typed && [KindPrefix(kind)] <= KeyBytes(k)
    ensures exists id :: k == KeyOf(kind, id)
  {
    FirstByteTellsKind(k);
    match kind
    case Requests => assert k == KeyOf(kind, k.id);
    case DataSources => assert k == KeyOf(kind, k.id);
    case OracleScripts => assert k == KeyOf(kind, k.id);
    case Results => assert k == KeyOf(kind, k.id);
  }

  /** A scan over one kind visits exactly the records of that kind, and if their identifiers are
      not negative, in ascending order of the identifiers. */
  lemma {:induction false} ScanVisitsKindInOrder<V>(raw: map<bytes, V>, typed: map<Key, V>, kind: Kind, keys: seq<bytes>)
    requires Represents(raw, typed) && IsScan(raw, [KindPrefix(kind)], keys)
    requires forall id :: KeyOf(kind, id) in typed ==> id >= 0
    ensures forall id: int64 :: KeyOf(kind, id) in typed <==> KeyBytes(KeyOf(kind, id)) in keys
    ensures forall i :: 0 <= i < |keys| ==>
              && |keys[i]| >= 1 && KeyOf(kind, IdIn(keys[i])) in typed
              && keys[i] == KeyBytes(KeyOf(kind, IdIn(keys[i])))
    ensures forall i, j :: 0 <= i < j < |keys| ==> |keys[i]| >= 1 && |keys[j]| >= 1 && IdIn(keys[i]) < IdIn(keys[j])
  {
    hide KeyBytes, IdIn;
    forall id: int64 ensures KeyOf(kind, id) in typed <==> KeyBytes(KeyOf(kind, id)) in keys {
      IdInKey(kind, id);
      HasRefines(raw, typed, KeyOf(kind, id));
    }
    forall i | 0 <= i < |keys|
      ensures && |keys[i]| >= 1 && KeyOf(kind, IdIn(keys[i])) in typed
              && keys[i] == KeyBytes(KeyOf(kind, IdIn(keys[i])))
    {
      assert keys[i] in keys;
      var k :| k in typed && KeyBytes(k) == keys[i];
      KeyWithPrefix(typed, kind, k);
      var id :| k == KeyOf(kind, id);
      IdInKey(kind, id);
    }
    forall i, j | 0 <= i < j < |keys| ensures IdIn(keys[i]) < IdIn(keys[j]) {
      var a, b := IdIn(keys[i]), IdIn(keys[j]);
      IdInKey(kind, a);
      IdInKey(kind, b);
      if a >= b {
        IdKeysKeepOrder(kind, b, a);
        LessIsIrreflexive(keys[i]);
        LessIsAsymmetric(keys[i], keys[j]);
      }
    }
  }

  lemma IdKeysKeepOrder(kind: Kind, a: int64, b: int64)
    requires 0 <= a <= b
    ensures a < b ==> Less(KeyBytes(KeyOf(kind, a)), KeyBytes(KeyOf(kind, b)))
  {
    IdInKey(kind, a);
    IdInKey(kind, b);
    WidthIsPower(W64);
    hide KeyBytes, BigEndian, Pow;
    if a < b {
      BigEndianKeepsOrder(a, b, 8);
      LessAfterPrefix([KindPrefix(kind)], IdBytes(a), IdBytes(b));
    }
  }

  /** The prefix under which the reports of one request are scanned. */
  function ReportPrefix(id: int64): bytes {
    [0x02] + IdBytes(id)
  }

  /** A scan over the reports of one request visits exactly its reports: those of no other request
      and no other record. */
  lemma ReportScanVisitsOneRequest<V>(raw: map<bytes, V>, typed: map<Key, V>, id: int64, keys: seq<bytes>)
    requires Represents(raw, typed) && IsScan(raw, ReportPrefix(id), keys)
    ensures forall b :: b in keys <==> exists v :: ReportOf(id, v) in typed && b == KeyBytes(ReportOf(id, v))
  {
    hide IdBytes;
    forall b ensures b in keys <==> exists v :: ReportOf(id, v) in typed && b == KeyBytes(ReportOf(id, v)) {
      if b in keys {
        var k :| k in typed && KeyBytes(k) == b;
        FirstByteTellsKind(k);
        assert b[0] == ReportPrefix(id)[0];
        assert b == ReportPrefix(k.id) + k.validator;
        assert ReportPrefix(id) + b[9..] == b;
        SameLengthSplit(ReportPrefix(k.id), k.validator, ReportPrefix(id), b[9..]);
        SameLengthSplit([0x02], IdBytes(k.id), [0x02], IdBytes(id));
        SameIdBytes(k.id, id);
        assert k == ReportOf(id, k.validator);
      }
      if v :| ReportOf(id, v) in typed && b == KeyBytes(ReportOf(id, v)) {
        assert b == ReportPrefix(id) + v;
      }
    }
  }
}
