/** The Python encoder, against the Go encoder. */
module PyObiEncoding {
  import opened MachineTypes
  import opened NaturalPowers
  import G = Obi
  import opened ObiSchema
  import R = ObiRoundTrip
  import P = PyObi

  datatype PyValue =
    | PyInt(n: int)
    | PyStr(text: string)
    | PyBytes(data: bytes)
    | PyList(items: seq<PyValue>)
    | PyDict(entries: map<string, PyValue>)

  datatype PyError = OverflowError | KeyError | TypeError

  function Utf8Char(c: char): (b: bytes)
    ensures |b| == 1 <==> c as int < 0x80
    ensures b != []
  {
    var x := c as int;
    if x < 0x80 then [x]
    else if x < 0x800 then [0xC0 + x / 64, 0x80 + x % 64]
    else if x < 0x1_0000 then [0xE0 + x / 4096, 0x80 + x / 64 % 64, 0x80 + x % 64]
    else [0xF0 + x / 262144 % 8, 0x80 + x / 4096 % 64, 0x80 + x / 64 % 64, 0x80 + x % 64]
  }

  predicate IsContinuation(b: int) {
    0x80 <= b < 0xC0
  }

  /** The bytes of a character are its UTF-8: a first byte that tells their number, continuation bytes, the
      bits of the character in order, and no shorter form. */
  lemma Utf8CharIsExact(c: char)
    ensures var b, x := Utf8Char(c), c as int;
            || (|b| == 1 && x < 0x80 && b[0] == x)
            || (|b| == 2 && 0x80 <= x && Lead(b[0], 0xC0, 0xE0) && IsContinuation(b[1]) && x == Six(b[0] - 0xC0, b[1]))
            || (|b| == 3 && 0x800 <= x && Lead(b[0], 0xE0, 0xF0) && IsContinuation(b[1]) && IsContinuation(b[2])
                && x == Six(Six(b[0] - 0xE0, b[1]), b[2]))
            || (|b| == 4 && 0x1_0000 <= x && Lead(b[0], 0xF0, 0xF8) && IsContinuation(b[1]) && IsContinuation(b[2])
                && IsContinuation(b[3]) && x == Six(Six(Six(b[0] - 0xF0, b[1]), b[2]), b[3]))
  {
    var x := c as int;
    assert x / 4096 == x / 262144 * 64 + x / 4096 % 64 && x / 64 == x / 4096 * 64 + x / 64 % 64;
  }

  predicate Lead(b: int, from: int, to: int) {
    from <= b < to
  }

  /** The six bits of a continuation byte behind those read so far. */
  function Six(high: int, b: int): int {
    high * 64 + (b - 0x80)
  }

  /** Python's `str.encode()`. */
  function Utf8(s: string): bytes {
    if s == [] then [] else Utf8Char(s[0]) + Utf8(s[1..])
  }

  /** `int.to_bytes`: a number outside the range raises OverflowError. */
  function ToBytes(n: int, size: nat, signed: bool): Result<bytes, PyError> {
    var range := Pow(256, size);
    if signed && !(-(range / 2) <= n < range / 2) then Err(OverflowError)
    else if !signed && !(0 <= n < range) then Err(OverflowError)
    else Ok(G.BigEndian(if n < 0 then n + range else n, size))
  }

  function Join(first: Result<bytes, PyError>, rest: Result<bytes, PyError>): Result<bytes, PyError> {
    match first
    case Err(e) => Err(e)
    case Ok(a) =>
      match rest
      case Err(e) => Err(e)
      case Ok(b) => Ok(a + b)
  }

  /** The length prefix counts the characters of a string, not its bytes. */
  function PyEncoding(p: P.Spec, v: PyValue): Result<bytes, PyError>
    decreases p, 0, 0
  {
    match p
    case Integer(signed, size) => if v.PyInt? then ToBytes(v.n, size, signed) else Err(TypeError)
    case String => if v.PyStr? then Join(ToBytes(|v.text|, 4, false), Ok(Utf8(v.text))) else Err(TypeError)
    case Bytes => if v.PyBytes? then Join(ToBytes(|v.data|, 4, false), Ok(v.data)) else Err(TypeError)
    case Vector(intl) =>
      if v.PyList? then Join(ToBytes(|v.items|, 4, false), PyItems(intl, v.items)) else Err(TypeError)
    case Struct(kvs) => if v.PyDict? then PyEntries(kvs, v.entries) else Err(TypeError)
  }

  function PyItems(intl: P.Spec, items: seq<PyValue>): Result<bytes, PyError>
    decreases intl, 1, |items|
  {
    if items == [] then Ok([]) else Join(PyEncoding(intl, items[0]), PyItems(intl, items[1..]))
  }

  function PyEntries(kvs: seq<P.KeySpec>, entries: map<string, PyValue>): Result<bytes, PyError>
    decreases kvs, 1, 0
  {
    if kvs == [] then Ok([])
    else
      var first := kvs[0];
      assert first.spec < first;
      if first.key !in entries then Err(KeyError)
      else Join(PyEncoding(first.spec, entries[first.key]), PyEntries(kvs[1..], entries))
  }

  /** The value has the shape and the ranges the spec asks for. */
  predicate Fits(p: P.Spec, v: PyValue)
    decreases p
  {
    match p
    case Integer(signed, size) =>
      v.PyInt? && if signed then -(Pow(256, size) / 2) <= v.n < Pow(256, size) / 2 else 0 <= v.n < Pow(256, size)
    case String => v.PyStr? && |v.text| < TWO_TO_32
    case Bytes => v.PyBytes? && |v.data| < TWO_TO_32
    case Vector(intl) => v.PyList? && |v.items| < TWO_TO_32 && forall x :: x in v.items ==> Fits(intl, x)
    case Struct(kvs) => v.PyDict? && forall kv :: kv in kvs ==> kv.key in v.entries && Fits(kv.spec, v.entries[kv.key])
  }

  /** Encoding raises no error if and only if the value fits the spec. */
  lemma {:induction false} PyEncodesIff(p: P.Spec, v: PyValue)
    ensures PyEncoding(p, v).Ok? <==> Fits(p, v)
    decreases p, 0, 0
  {
    FourBytes();
    hide Pow;
    match p
    case Vector(intl) =>
      if v.PyList? {
        PyItemsEncodeIff(intl, v.items);
      }
    case Struct(kvs) =>
      if v.PyDict? {
        PyEntriesEncodeIff(kvs, v.entries);
      }
    case _ =>
  }

  lemma FourBytes()
    ensures Pow(256, 4) == TWO_TO_32
  {
    G.WidthIsPower(G.W32);
    hide Pow;
  }

  lemma {:induction false} PyItemsEncodeIff(intl: P.Spec, items: seq<PyValue>)
    ensures PyItems(intl, items).Ok? <==> forall x :: x in items ==> Fits(intl, x)
    decreases intl, 1, |items|
  {
    if items != [] {
      PyEncodesIff(intl, items[0]);
      PyItemsEncodeIff(intl, items[1..]);
      hide Fits, PyEncoding;
      assert items == [items[0]] + items[1..];
    }
  }

  lemma {:induction false} PyEntriesEncodeIff(kvs: seq<P.KeySpec>, entries: map<string, PyValue>)
    ensures PyEntries(kvs, entries).Ok? <==> forall kv :: kv in kvs ==> kv.key in entries && Fits(kv.spec, entries[kv.key])
    decreases kvs, 1, 0
  {
    if kvs != [] {
      var first := kvs[0];
      assert first.spec < first;
      if first.key in entries {
        PyEncodesIff(first.spec, entries[first.key]);
      }
      PyEntriesEncodeIff(kvs[1..], entries);
      hide Fits, PyEncoding;
      assert kvs == [first] + kvs[1..];
    }
  }

  lemma JoinAssociative(a: bytes, b: bytes, rest: Result<bytes, PyError>)
    ensures Join(Ok(a), Join(Ok(b), rest)) == Join(Ok(a + b), rest)
    ensures Join(Ok([]), rest) == rest
    ensures Join(Ok(a), Ok([])) == Ok(a)
  {
    assert a + [] == a;
    if rest.Ok? {
      assert a + (b + rest.value) == a + b + rest.value;
      assert [] + rest.value == rest.value;
    }
  }

  /** PyObiVector.encode. */
  method EncodeVector(intl: P.Spec, items: seq<PyValue>) returns (r: Result<bytes, PyError>)
    ensures r == PyEncoding(P.Vector(intl), PyList(items))
    decreases intl, 1
  {
    var length := ToBytes(|items|, 4, false);
    if length.Err? {
      return length;
    }
    var result := length.value;
    ghost var whole := PyEncoding(P.Vector(intl), PyList(items));
    assert items[0..] == items;
    hide PyEncoding, ToBytes;
    for i := 0 to |items|
      invariant whole == Join(Ok(result), PyItems(intl, items[i..]))
    {
      assert items[i..][0] == items[i] && items[i..][1..] == items[i + 1..];
      var each := Encode(intl, items[i]);
      if each.Err? {
        return each;
      }
      JoinAssociative(result, each.value, PyItems(intl, items[i + 1..]));
      result := result + each.value;
    }
    JoinAssociative(result, [], Ok([]));
    return Ok(result);
  }

  /** PyObiStruct.encode. */
  method EncodeStruct(kvs: seq<P.KeySpec>, entries: map<string, PyValue>) returns (r: Result<bytes, PyError>)
    ensures r == PyEntries(kvs, entries)
    decreases kvs, 1
  {
    var result: bytes := [];
    JoinAssociative([], [], PyEntries(kvs, entries));
    assert kvs[0..] == kvs;
    hide PyEncoding;
    for i := 0 to |kvs|
      invariant PyEntries(kvs, entries) == Join(Ok(result), PyEntries(kvs[i..], entries))
    {
      var kv := kvs[i];
      assert kv.spec < kv;
      assert kvs[i..][0] == kv && kvs[i..][1..] == kvs[i + 1..];
      if kv.key !in entries {
        return Err(KeyError);
      }
      var each := Encode(kv.spec, entries[kv.key]);
      if each.Err? {
        return each;
      }
      JoinAssociative(result, each.value, PyEntries(kvs[i + 1..], entries));
      result := result + each.value;
    }
    JoinAssociative(result, [], Ok([]));
    return Ok(result);
  }

  method Encode(p: P.Spec, v: PyValue) returns (r: Result<bytes, PyError>)
    ensures r == PyEncoding(p, v)
    decreases p, 0
  {
    match p
    case Vector(intl) =>
      if !v.PyList? {
        return Err(TypeError);
      }
      r := EncodeVector(intl, v.items);
    case Struct(kvs) =>
      if !v.PyDict? {
        return Err(TypeError);
      }
      r := EncodeStruct(kvs, v.entries);
    case _ => return PyEncoding(p, v);
  }

  // ---------- the same value on both sides ----------

  /** A Go string of one-byte characters as a Python string. */
  function Characters(b: bytes): string
    requires forall i :: 0 <= i < |b| ==> b[i] < 0x80
  {
    seq(|b|, i requires 0 <= i < |b| => b[i] as char)
  }

  /** The value's strings consist of one-byte characters. */
  predicate OneByteStrings(v: G.Value, t: G.GoType)
    requires G.HasType(v, t)
    decreases t
  {
    match t
    case Str => forall i :: 0 <= i < |v.text| ==> v.text[i] < 0x80
    case Slice(elem) => t == G.BYTE_SLICE || forall x :: x in v.items ==> OneByteStrings(x, elem)
    case Struct(fields) => forall i :: 0 <= i < |fields| ==> OneByteStrings(v.values[i], fields[i].goType)
    case _ => true
  }

  /** No struct of the type uses a field name twice. */
  ghost predicate DistinctTags(t: G.GoType) {
    match t
    case Slice(elem) => DistinctTags(elem)
    case Struct(fields) =>
      && (forall i, j :: 0 <= i < j < |fields| ==> fields[i].tag != fields[j].tag)
      && forall f :: f in fields ==> DistinctTags(f.goType)
    case _ => true
  }

  /** The Python value for a Go value: a list for a slice, a dictionary by field name for a struct, and
      for a string the one with the same bytes in UTF-8. */
  ghost predicate SameValue(v: G.Value, t: G.GoType, p: PyValue)
    requires G.HasType(v, t)
    decreases t
  {
    match t
    case Uint(_) => p == PyInt(v.n)
    case Int(_) => p == PyInt(v.n)
    case Str => p.PyStr? && Utf8(p.text) == v.text
    case Slice(elem) =>
      if t == G.BYTE_SLICE then p == PyBytes(v.text)
      else
        p.PyList? && |p.items| == |v.items| && forall i :: 0 <= i < |v.items| ==> SameValue(v.items[i], elem, p.items[i])
    case Struct(fields) =>
      p.PyDict? && forall i :: 0 <= i < |fields| ==>
        && fields[i].tag.Some? && fields[i].tag.value in p.entries
        && SameValue(v.values[i], fields[i].goType, p.entries[fields[i].tag.value])
    case Other => false
  }

  lemma WidthBytes(n: int, w: G.Width, signed: bool)
    requires if signed then -(w.Range() / 2) <= n < w.Range() / 2 else 0 <= n < w.Range()
    ensures ToBytes(n, w.Size(), signed) == Ok(G.EncodeUnsigned(G.Unsigned(n, w), w))
  {
    hide G.BigEndian, Pow;
    G.WidthIsPower(w);
    if n < 0 {
      assert G.Unsigned(n, w) == n + w.Range();
    }
  }

  lemma {:induction false} AsciiIsUtf8(b: bytes)
    requires forall i :: 0 <= i < |b| ==> b[i] < 0x80
    ensures Utf8(Characters(b)) == b
  {
    if b != [] {
      assert Characters(b)[1..] == Characters(b[1..]);
      AsciiIsUtf8(b[1..]);
      assert b == [b[0]] + b[1..];
    }
  }

  lemma LengthPrefix(n: nat, rest: bytes)
    requires n < TWO_TO_32
    ensures Join(ToBytes(n, 4, false), Ok(rest)) == Ok(G.Length(n) + rest)
  {
    WidthBytes(n, G.W32, false);
  }

  /** `py` has the length of the Go encoding `go`, and is the same if and only if `same`. */
  ghost predicate Agrees(py: Result<bytes, PyError>, go: Result<bytes, G.Error>, same: bool) {
    py.Ok? && go.Ok? && |py.value| == |go.value| && (py.value == go.value <==> same)
  }

  lemma {:induction false} Utf8Length(s: string)
    ensures |Utf8(s)| >= |s|
    ensures |Utf8(s)| == |s| <==> forall i :: 0 <= i < |Utf8(s)| ==> Utf8(s)[i] < 0x80
  {
    if s != [] {
      Utf8Length(s[1..]);
      var first, rest := Utf8Char(s[0]), Utf8(s[1..]);
      assert Utf8(s)[0] == first[0] && Utf8(s)[|first|..] == rest;
      assert forall i :: 0 <= i < |rest| ==> Utf8(s)[|first| + i] == rest[i];
      assert |first| == 1 <==> first[0] < 0x80;
      hide Utf8Char, Utf8;
      if |first| == 1 && |rest| == |s[1..]| {
        assert forall i :: 1 <= i < |Utf8(s)| ==> Utf8(s)[i] == rest[i - 1];
      }
    }
  }

  /** On strings the two encoders agree exactly if every character takes one byte: Python writes the
      number of characters in front of the bytes, Go the number of bytes. */
  lemma PyStringLikeGoIff(s: string)
    requires |Utf8(s)| < TWO_TO_32
    ensures Agrees(PyEncoding(P.String, PyStr(s)), Ok(G.EncodeBytes(Utf8(s))),
                   forall i :: 0 <= i < |Utf8(s)| ==> Utf8(s)[i] < 0x80)
  {
    Utf8Length(s);
    LengthPrefix(|s|, Utf8(s));
    hide ToBytes, Utf8;
    if |s| != |Utf8(s)| {
      DifferentLengths(|s|, |Utf8(s)|, Utf8(s));
    }
  }

  lemma DifferentLengths(n: nat, m: nat, rest: bytes)
    requires n < m < TWO_TO_32
    ensures G.Length(n) + rest != G.Length(m) + rest
  {
    hide G.EncodeUnsigned;
    if G.Length(n) + rest == G.Length(m) + rest {
      R.SameUnsigned(n, rest, m, rest, G.W32);
    }
  }

  lemma AgreeTogether(py: Result<bytes, PyError>, go: Result<bytes, G.Error>, same: bool,
                      pyRest: Result<bytes, PyError>, goRest: Result<bytes, G.Error>, sameRest: bool)
    requires Agrees(py, go, same) && Agrees(pyRest, goRest, sameRest)
    ensures Agrees(Join(py, pyRest), G.After(go, goRest), same && sameRest)
  {
    if py.value + pyRest.value == go.value + goRest.value {
      SameLengthSplit(py.value, pyRest.value, go.value, goRest.value);
    }
  }

  lemma {:induction false} PyAgreesWithGo(v: G.Value, t: G.GoType, p: PyValue)
    requires G.HasType(v, t) && G.LengthsFit(v) && Schema(t).Ok? && SameValue(v, t, p)
    ensures Agrees(PyEncoding(PySpec(t), p), G.Encoding(v, t), OneByteStrings(v, t))
    decreases t, 0, 0
  {
    hide G.EncodeUnsigned, G.Unsigned, ToBytes, G.EncodeBytes, G.Length, Agrees;
    match t
    case Uint(w) =>
      WidthBytes(v.n, w, false);
      UnsignedIsItself(v.n, w);
      SameAgrees(G.EncodeUnsigned(v.n, w));
    case Int(w) =>
      WidthBytes(v.n, w, true);
      SameAgrees(G.EncodeUnsigned(G.Unsigned(v.n, w), w));
    case Str => PyStringLikeGoIff(p.text);
    case Slice(elem) =>
      if t == G.BYTE_SLICE {
        LengthPrefix(|v.text|, v.text);
        SameAgrees(G.EncodeBytes(v.text));
        assert G.EncodeBytes(v.text) == G.Length(|v.text|) + v.text by { TextIsLengthThenBytes(v.text); }
      } else {
        PyItemsLikeGoIff(v.items, elem, p.items);
        PrefixOf(|v.items|);
        SameAgrees(G.Length(|v.items|));
        AgreeTogether(Ok(G.Length(|v.items|)), Ok(G.Length(|v.items|)), true,
                      PyItems(PySpec(elem), p.items), G.ItemsEncoding(v.items, elem),
                      forall i :: 0 <= i < |v.items| ==> OneByteStrings(v.items[i], elem));
        SameStrings(v.items, elem);
      }
    case Struct(fields) => PyEntriesLikeGoIff(v.values, fields, p.entries);
  }

  lemma SameStrings(items: seq<G.Value>, elem: G.GoType)
    requires forall x :: x in items ==> G.HasType(x, elem)
    ensures (forall i :: 0 <= i < |items| ==> OneByteStrings(items[i], elem)) <==> (forall x :: x in items ==> OneByteStrings(x, elem))
  {
    hide OneByteStrings;
  }

  lemma TextIsLengthThenBytes(b: bytes)
    ensures G.EncodeBytes(b) == G.Length(|b|) + b
  {
    hide G.Length;
  }

  lemma PrefixOf(n: nat)
    requires n < TWO_TO_32
    ensures ToBytes(n, 4, false) == Ok(G.Length(n))
  {
    LengthPrefix(n, []);
    hide G.Length, ToBytes;
    assert G.Length(n) + [] == G.Length(n);
    assert ToBytes(n, 4, false).Ok? ==> ToBytes(n, 4, false).value + [] == ToBytes(n, 4, false).value;
  }

  lemma SameAgrees(b: bytes)
    ensures Agrees(Ok(b), Ok(b), true)
  {
  }

  lemma UnsignedIsItself(n: nat, w: G.Width)
    requires n < w.Range()
    ensures G.Unsigned(n, w) == n
  {}

  lemma {:induction false} PyItemsLikeGoIff(items: seq<G.Value>, elem: G.GoType, pyItems: seq<PyValue>)
    requires forall x :: x in items ==> G.HasType(x, elem) && G.LengthsFit(x)
    requires Schema(elem).Ok? && |pyItems| == |items|
    requires forall i :: 0 <= i < |items| ==> SameValue(items[i], elem, pyItems[i])
    ensures Agrees(PyItems(PySpec(elem), pyItems), G.ItemsEncoding(items, elem),
                   forall i :: 0 <= i < |items| ==> OneByteStrings(items[i], elem))
    decreases elem, 1, |items|
  {
    hide OneByteStrings, PyEncoding, G.Encoding, Agrees, SameValue;
    if items == [] {
      SameAgrees([]);
    } else {
      PyAgreesWithGo(items[0], elem, pyItems[0]);
      PyItemsLikeGoIff(items[1..], elem, pyItems[1..]);
      var sameRest := forall i :: 0 <= i < |items[1..]| ==> OneByteStrings(items[1..][i], elem);
      AgreeTogether(PyEncoding(PySpec(elem), pyItems[0]), G.Encoding(items[0], elem), OneByteStrings(items[0], elem),
                    PyItems(PySpec(elem), pyItems[1..]), G.ItemsEncoding(items[1..], elem), sameRest);
      assert (forall i :: 0 <= i < |items| ==> OneByteStrings(items[i], elem)) <==> OneByteStrings(items[0], elem) && sameRest by {
        assert forall i :: 1 <= i < |items| ==> items[i] == items[1..][i - 1];
      }
    }
  }

  lemma {:induction false} PyEntriesLikeGoIff(values: seq<G.Value>, fields: seq<G.Field>, entries: map<string, PyValue>)
    requires |values| == |fields| && forall i :: 0 <= i < |fields| ==> G.HasType(values[i], fields[i].goType)
    requires forall x :: x in values ==> G.LengthsFit(x)
    requires FieldsSchema(fields).Ok?
    requires forall i :: 0 <= i < |fields| ==>
               && fields[i].tag.Some? && fields[i].tag.value in entries
               && SameValue(values[i], fields[i].goType, entries[fields[i].tag.value])
    ensures Agrees(PyEntries(PySpecs(fields), entries), G.FieldsEncoding(values, fields),
                   forall i :: 0 <= i < |fields| ==> OneByteStrings(values[i], fields[i].goType))
    decreases fields, 1, 0
  {
    hide OneByteStrings, PyEncoding, G.Encoding, Agrees, SameValue;
    if fields == [] {
      SameAgrees([]);
    } else {
      var first := fields[0];
      assert first.goType < first;
      var entry := entries[first.tag.value];
      PyAgreesWithGo(values[0], first.goType, entry);
      PyEntriesLikeGoIff(values[1..], fields[1..], entries);
      assert PySpecs(fields)[1..] == PySpecs(fields[1..]);
      var sameRest := forall i :: 0 <= i < |fields[1..]| ==> OneByteStrings(values[1..][i], fields[1..][i].goType);
      AgreeTogether(PyEncoding(PySpec(first.goType), entry), G.Encoding(values[0], first.goType), OneByteStrings(values[0], first.goType),
                    PyEntries(PySpecs(fields[1..]), entries), G.FieldsEncoding(values[1..], fields[1..]), sameRest);
      assert (forall i :: 0 <= i < |fields| ==> OneByteStrings(values[i], fields[i].goType))
        <==> OneByteStrings(values[0], first.goType) && sameRest by {
        assert forall i :: 1 <= i < |fields| ==> values[i] == values[1..][i - 1] && fields[i] == fields[1..][i - 1];
      }
    }
  }

  /** For the same value of the same type, the Python encoder writes the bytes of the Go encoder if and
      only if every string in the value consists of one-byte characters; otherwise it writes as many
      others. */
  lemma PyEncodesLikeGoIff(v: G.Value, t: G.GoType, p: PyValue)
    requires G.HasType(v, t) && G.LengthsFit(v) && Schema(t).Ok? && SameValue(v, t, p)
    ensures PyEncoding(PySpec(t), p).Ok? && G.Encoding(v, t).Ok?
    ensures |PyEncoding(PySpec(t), p).value| == |G.Encoding(v, t).value|
    ensures PyEncoding(PySpec(t), p).value == G.Encoding(v, t).value <==> OneByteStrings(v, t)
  {
    PyAgreesWithGo(v, t, p);
    hide PyEncoding, G.Encoding, OneByteStrings;
  }

  /** A string is written alike if and only if all its characters take one byte. */
  lemma PyStringMatchesGoIff(s: string)
    requires |Utf8(s)| < TWO_TO_32
    ensures PyEncoding(P.String, PyStr(s)) == Ok(G.EncodeBytes(Utf8(s)))
       <==> forall i :: 0 <= i < |s| ==> s[i] as int < 0x80
  {
    PyStringLikeGoIff(s);
    Utf8Length(s);
    OneByteEach(s);
    hide ToBytes, Utf8, G.EncodeBytes;
  }

  lemma {:induction false} OneByteEach(s: string)
    ensures |Utf8(s)| == |s| <==> forall i :: 0 <= i < |s| ==> s[i] as int < 0x80
  {
    if s != [] {
      OneByteEach(s[1..]);
      Utf8Length(s[1..]);
    }
  }

  /** The value's strings are UTF-8. */
  ghost predicate Utf8Strings(v: G.Value, t: G.GoType)
    requires G.HasType(v, t)
    decreases t
  {
    match t
    case Str => exists s :: Utf8(s) == v.text
    case Slice(elem) => t == G.BYTE_SLICE || forall x :: x in v.items ==> Utf8Strings(x, elem)
    case Struct(fields) => forall i :: 0 <= i < |fields| ==> Utf8Strings(v.values[i], fields[i].goType)
    case _ => true
  }

  lemma {:induction false} OneByteStringsAreUtf8(v: G.Value, t: G.GoType)
    requires G.HasType(v, t) && OneByteStrings(v, t)
    ensures Utf8Strings(v, t)
    decreases t
  {
    match t
    case Str => AsciiIsUtf8(v.text);
    case Slice(elem) =>
      if t != G.BYTE_SLICE {
        forall x | x in v.items ensures Utf8Strings(x, elem) {
          OneByteStringsAreUtf8(x, elem);
        }
      }
    case Struct(fields) =>
      forall i | 0 <= i < |fields| ensures Utf8Strings(v.values[i], fields[i].goType) {
        assert fields[i].goType < fields[i];
        OneByteStringsAreUtf8(v.values[i], fields[i].goType);
      }
    case _ =>
  }

  /** Every value of a type with distinct field names and UTF-8 strings has a Python counterpart. */
  lemma {:induction false} CounterpartExists(v: G.Value, t: G.GoType) returns (p: PyValue)
    requires G.HasType(v, t) && Schema(t).Ok? && DistinctTags(t) && Utf8Strings(v, t)
    ensures SameValue(v, t, p)
    decreases t, 0, 0
  {
    match t
    case Uint(_) => p := PyInt(v.n);
    case Int(_) => p := PyInt(v.n);
    case Str =>
      var s :| Utf8(s) == v.text;
      p := PyStr(s);
    case Slice(elem) =>
      if t == G.BYTE_SLICE {
        p := PyBytes(v.text);
      } else {
        var items := CounterpartItems(v.items, elem);
        p := PyList(items);
      }
    case Struct(fields) =>
      var entries := CounterpartEntries(v.values, fields);
      p := PyDict(entries);
  }

  lemma {:induction false} CounterpartItems(items: seq<G.Value>, elem: G.GoType) returns (r: seq<PyValue>)
    requires forall x :: x in items ==> G.HasType(x, elem) && Utf8Strings(x, elem)
    requires Schema(elem).Ok? && DistinctTags(elem)
    ensures |r| == |items| && forall i :: 0 <= i < |items| ==> SameValue(items[i], elem, r[i])
    decreases elem, 1, |items|
  {
    if items == [] {
      r := [];
    } else {
      var first := CounterpartExists(items[0], elem);
      var rest := CounterpartItems(items[1..], elem);
      r := [first] + rest;
    }
  }

  lemma {:induction false} CounterpartEntries(values: seq<G.Value>, fields: seq<G.Field>) returns (r: map<string, PyValue>)
    requires |values| == |fields|
    requires forall i :: 0 <= i < |fields| ==>
               G.HasType(values[i], fields[i].goType) && Utf8Strings(values[i], fields[i].goType)
    requires FieldsSchema(fields).Ok? && DistinctTags(G.Struct(fields))
    ensures forall i :: 0 <= i < |fields| ==>
              && fields[i].tag.Some? && fields[i].tag.value in r
              && SameValue(values[i], fields[i].goType, r[fields[i].tag.value])
    decreases fields, 1, 0
  {
    if fields == [] {
      r := map[];
    } else {
      var first := fields[0];
      assert first.goType < first && first in fields;
      var p := CounterpartExists(values[0], first.goType);
      assert DistinctTags(G.Struct(fields[1..]));
      var rest := map[];
      if |fields| > 1 {
        rest := CounterpartEntries(values[1..], fields[1..]);
      }
      r := rest[first.tag.value := p];
      forall i | 1 <= i < |fields|
        ensures && fields[i].tag.Some? && fields[i].tag.value in r
                && SameValue(values[i], fields[i].goType, r[fields[i].tag.value])
      {
        assert fields[i] == fields[1..][i - 1] && values[i] == values[1..][i - 1];
        assert fields[i].tag != first.tag;
      }
    }
  }
}
