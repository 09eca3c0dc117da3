/** The bytes of an OBI encoding and the text of a schema, without the functions that build them. */
module ObiBytes {
  import opened MachineTypes
  import opened NaturalPowers
  import opened Obi
  import opened Sampling
  import R = ObiRoundTrip
  import S = ObiSchema

  // ---------- numbers ----------

  /** Byte k of a number is its digit to the base 256 with size - 1 - k digits behind it. */
  lemma {:induction false} BigEndianByte(n: nat, size: nat, k: nat)
    requires k < size
    ensures Pow(256, size - 1 - k) > 0
    ensures BigEndian(n, size)[k] == n / Pow(256, size - 1 - k) % 256
  {
    PowPositive(256, size - 1 - k);
    if k < size - 1 {
      BigEndianByte(n / 256, size - 1, k);
      PowPositive(256, size - 2 - k);
      DivideTwice(n, 256, Pow(256, size - 2 - k));
    }
  }

  lemma DivideTwice(n: nat, a: nat, b: nat)
    requires a > 0 && b > 0
    ensures a * b > 0 && n / a / b == n / (a * b)
  {
    ProductMonotone(1, a, 1, b);
    var q, r := n / a, n % a;
    var p, u := q / b, q % b;
    Regrouped(n, a, b, p, u, r);
    QuotientIs(n, a * b, p, a * u + r);
  }

  lemma Regrouped(n: nat, a: nat, b: nat, p: nat, u: nat, r: nat)
    requires n == a * (p * b + u) + r && u < b && r < a
    ensures n == p * (a * b) + (a * u + r) && a * u + r < a * b
  {
    ProductMonotone(a, a, u + 1, b);
    assert a * (p * b + u) == a * (p * b) + a * u;
    assert a * (p * b) == p * (a * b);
    assert a * (u + 1) == a * u + a;
  }

  lemma QuotientIs(n: nat, d: nat, q: nat, r: nat)
    requires d > 0 && n == q * d + r && r < d
    ensures n / d == q
  {
    MultipleBounds(n / d, q, d, n % d - r);
  }

  /** A number of w bits is written as that many bytes, most significant first; a negative one as the
      number larger by 2 to the power of w, its two's complement. */
  lemma NumberBytes(n: int, w: Width, k: nat)
    requires -(w.Range() / 2) <= n < w.Range() && k < w.Size()
    ensures Pow(256, w.Size() - 1 - k) > 0
    ensures n >= 0 ==> var b := Encoding(Number(n), Uint(w)).value;
              |b| == w.Size() && b[k] == n / Pow(256, w.Size() - 1 - k) % 256
    ensures n < w.Range() / 2 ==> var b := Encoding(Number(n), Int(w)).value;
              |b| == w.Size() && b[k] == (if n < 0 then n + w.Range() else n) / Pow(256, w.Size() - 1 - k) % 256
  {
    var unsigned := if n < 0 then n + w.Range() else n;
    R.WrapAround(n, w.Range());
    BigEndianByte(unsigned, w.Size(), k);
    hide BigEndian, Pow;
  }

  // ---------- lists and records ----------

  function Concatenated(pieces: seq<bytes>): bytes {
    if pieces == [] then [] else Concatenated(pieces[..|pieces| - 1]) + pieces[|pieces| - 1]
  }

  lemma {:induction false} ConcatenatedFront(first: bytes, pieces: seq<bytes>)
    ensures Concatenated([first] + pieces) == first + Concatenated(pieces)
  {
    if pieces == [] {
      assert [first] + pieces == [first] && [first][..0] == [];
      assert first + [] == first && [] + first == first;
    } else {
      var n := |pieces| - 1;
      ConcatenatedFront(first, pieces[..n]);
      var all := [first] + pieces;
      assert all[..|all| - 1] == [first] + pieces[..n] && all[|all| - 1] == pieces[n];
      AppendedLast(first, Concatenated(pieces[..n]), pieces[n]);
      hide Concatenated;
    }
  }

  lemma AppendedLast(a: bytes, b: bytes, c: bytes)
    ensures a + b + c == a + (b + c)
  {
  }

  /** The encodings of the elements, one for each in order. */
  ghost predicate ArePieces(items: seq<Value>, elem: GoType, pieces: seq<bytes>)
    requires forall x :: x in items ==> HasType(x, elem)
  {
    |pieces| == |items| && forall i :: 0 <= i < |items| ==> Encoding(items[i], elem) == Ok(pieces[i])
  }

  lemma {:induction false} ItemsAreConcatenated(items: seq<Value>, elem: GoType) returns (pieces: seq<bytes>)
    requires forall x :: x in items ==> HasType(x, elem)
    requires ItemsEncoding(items, elem).Ok?
    ensures ArePieces(items, elem, pieces) && ItemsEncoding(items, elem).value == Concatenated(pieces)
    decreases |items|
  {
    hide Encoding;
    if items == [] {
      pieces := [];
    } else {
      var first := Encoding(items[0], elem).value;
      var rest := ItemsAreConcatenated(items[1..], elem);
      ConcatenatedFront(first, rest);
      pieces := [first] + rest;
      hide Concatenated;
    }
  }

  /** A slice is its length in four bytes and then its elements in order; a string or a []uint8 its length
      in four bytes and then its bytes. */
  lemma SliceBytes(items: seq<Value>, elem: GoType) returns (pieces: seq<bytes>)
    requires elem != Uint(W8) && HasType(List(items), Slice(elem)) && Encoding(List(items), Slice(elem)).Ok?
    requires |items| < TWO_TO_32
    ensures ArePieces(items, elem, pieces)
    ensures Encoding(List(items), Slice(elem)).value == BigEndian(|items|, 4) + Concatenated(pieces)
  {
    SliceUnfolds(items, elem);
    hide *;
    pieces := ItemsAreConcatenated(items, elem);
  }

  lemma SliceHasType(items: seq<Value>, elem: GoType)
    requires elem != Uint(W8) && HasType(List(items), Slice(elem))
    ensures forall x :: x in items ==> HasType(x, elem)
  {
  }

  lemma SliceUnfolds(items: seq<Value>, elem: GoType)
    requires elem != Uint(W8) && HasType(List(items), Slice(elem)) && Encoding(List(items), Slice(elem)).Ok?
    requires |items| < TWO_TO_32
    ensures (forall x :: x in items ==> HasType(x, elem)) && ItemsEncoding(items, elem).Ok?
    ensures Encoding(List(items), Slice(elem)).value == BigEndian(|items|, 4) + ItemsEncoding(items, elem).value
  {
    hide HasType, ItemsEncoding, BigEndian, EncodeBytes;
    SliceHasType(items, elem);
    assert Encoding(List(items), Slice(elem)) == After(Ok(Length(|items|)), ItemsEncoding(items, elem));
  }

  lemma TextBytes(text: bytes)
    requires |text| < TWO_TO_32
    ensures Encoding(Text(text), Str) == Ok(BigEndian(|text|, 4) + text)
    ensures Encoding(Text(text), BYTE_SLICE) == Ok(BigEndian(|text|, 4) + text)
  {
    hide BigEndian;
  }

  ghost predicate AreFieldPieces(values: seq<Value>, fields: seq<Field>, pieces: seq<bytes>)
    requires |values| == |fields| && forall i :: 0 <= i < |fields| ==> HasType(values[i], fields[i].goType)
  {
    |pieces| == |values| && forall i :: 0 <= i < |values| ==> Encoding(values[i], fields[i].goType) == Ok(pieces[i])
  }

  /** A struct is its fields in order, and nothing else. */
  lemma {:induction false} StructBytes(values: seq<Value>, fields: seq<Field>) returns (pieces: seq<bytes>)
    requires |values| == |fields| && forall i :: 0 <= i < |fields| ==> HasType(values[i], fields[i].goType)
    requires FieldsEncoding(values, fields).Ok?
    ensures AreFieldPieces(values, fields, pieces)
    ensures Encoding(Record(values), Struct(fields)) == Ok(Concatenated(pieces))
    decreases |fields|
  {
    if fields == [] {
      pieces := [];
    } else {
      var first := Encoding(values[0], fields[0].goType).value;
      var rest := StructBytes(values[1..], fields[1..]);
      ConcatenatedFront(first, rest);
      pieces := [first] + rest;
      RestOfStruct(values, fields, first, rest, pieces);
      FirstFieldThenRest(values, fields);
      hide Concatenated, HasType, FieldsEncoding;
    }
  }

  lemma RestOfStruct(values: seq<Value>, fields: seq<Field>, first: bytes, rest: seq<bytes>, pieces: seq<bytes>)
    requires |values| == |fields| > 0 && forall i :: 0 <= i < |fields| ==> HasType(values[i], fields[i].goType)
    requires Encoding(values[0], fields[0].goType) == Ok(first) && pieces == [first] + rest
    requires AreFieldPieces(values[1..], fields[1..], rest)
    ensures AreFieldPieces(values, fields, pieces)
  {
    hide Encoding, HasType;
    forall i | 0 <= i < |values| ensures Encoding(values[i], fields[i].goType) == Ok(pieces[i]) {
      if i > 0 {
        assert values[i] == values[1..][i - 1] && fields[i] == fields[1..][i - 1];
      }
    }
  }

  lemma FirstFieldThenRest(values: seq<Value>, fields: seq<Field>)
    requires |values| == |fields| > 0 && forall i :: 0 <= i < |fields| ==> HasType(values[i], fields[i].goType)
    ensures Encoding(Record(values), Struct(fields))
         == After(Encoding(values[0], fields[0].goType), Encoding(Record(values[1..]), Struct(fields[1..])))
  {
  }

  // ---------- what can be encoded ----------

  /** No part of the value is of a kind the codec does not list. */
  predicate NothingForeign(v: Value) {
    match v
    case List(items) => forall x :: x in items ==> NothingForeign(x)
    case Record(values) => forall x :: x in values ==> NothingForeign(x)
    case Foreign => false
    case _ => true
  }

  /** Encoding fails if and only if the value has such a part; an empty slice of an unlisted kind encodes. */
  lemma {:induction false} EncodesIff(v: Value, t: GoType)
    requires HasType(v, t)
    ensures Encoding(v, t).Ok? <==> NothingForeign(v)
    ensures Encoding(v, t).Err? ==> Encoding(v, t).error == Unsupported
    decreases t, 0
  {
    match t
    case Slice(elem) =>
      if t != BYTE_SLICE {
        ItemsEncodeIff(v.items, elem);
      }
    case Struct(fields) => FieldsEncodeIff(v.values, fields);
    case _ =>
  }

  lemma {:induction false} ItemsEncodeIff(items: seq<Value>, elem: GoType)
    requires forall x :: x in items ==> HasType(x, elem)
    ensures ItemsEncoding(items, elem).Ok? <==> forall x :: x in items ==> NothingForeign(x)
    ensures ItemsEncoding(items, elem).Err? ==> ItemsEncoding(items, elem).error == Unsupported
    decreases elem, 1, |items|
  {
    if items != [] {
      EncodesIff(items[0], elem);
      ItemsEncodeIff(items[1..], elem);
      hide Encoding, HasType, NothingForeign;
      assert items == [items[0]] + items[1..];
    }
  }

  lemma {:induction false} FieldsEncodeIff(values: seq<Value>, fields: seq<Field>)
    requires |values| == |fields| && forall i :: 0 <= i < |fields| ==> HasType(values[i], fields[i].goType)
    ensures FieldsEncoding(values, fields).Ok? <==> forall x :: x in values ==> NothingForeign(x)
    ensures FieldsEncoding(values, fields).Err? ==> FieldsEncoding(values, fields).error == Unsupported
    decreases fields, 1
  {
    if fields != [] {
      var first := fields[0];
      assert first.goType < first;
      EncodesIff(values[0], first.goType);
      FieldsEncodeIff(values[1..], fields[1..]);
      hide Encoding, HasType, NothingForeign;
      assert values == [values[0]] + values[1..];
    }
  }

  // ---------- an example ----------

  const INNER_FIELDS := [Field(Some("a"), Uint(W8)), Field(Some("b"), Uint(W8))]
  const SYMBOL := Field(Some("symbol"), Str)
  const PX := Field(Some("px"), Uint(W64))
  const IN := Field(Some("in"), Struct(INNER_FIELDS))
  const ARR := Field(Some("arr"), Slice(Int(W16)))
  const EXAMPLE_TYPE := Struct([SYMBOL, PX, IN, ARR])
  const BTC: bytes := [0x42, 0x54, 0x43]
  const INNER := Record([Number(1), Number(2)])
  const LIST := List([Number(10), Number(11)])
  const EXAMPLE_VALUE := Record([Text(BTC), Number(9000), INNER, LIST])

  lemma FieldInFront(v: Value, field: Field, values: seq<Value>, fields: seq<Field>, first: bytes, rest: bytes)
    requires HasType(v, field.goType) && Encoding(v, field.goType) == Ok(first)
    requires |values| == |fields| && forall i :: 0 <= i < |fields| ==> HasType(values[i], fields[i].goType)
    requires FieldsEncoding(values, fields) == Ok(rest)
    ensures forall i :: 0 <= i < |[field] + fields| ==> HasType(([v] + values)[i], ([field] + fields)[i].goType)
    ensures FieldsEncoding([v] + values, [field] + fields) == Ok(first + rest)
  {
    assert ([v] + values)[1..] == values && ([field] + fields)[1..] == fields;
    hide Encoding, HasType;
  }

  lemma {:induction false} ZeroBytes(size: nat)
    ensures forall k :: 0 <= k < size ==> BigEndian(0, size)[k] == 0
  {
    if size > 0 {
      ZeroBytes(size - 1);
    }
  }

  lemma SmallNumberBytes(n: nat, size: nat)
    requires 2 <= size && n < 0x1_0000
    ensures BigEndian(n, size) == BigEndian(0, size - 2) + [n / 256, n % 256]
  {
    assert BigEndian(n / 256, size - 1) == BigEndian(0, size - 2) + [n / 256];
  }

  lemma ExampleNumber()
    ensures HasType(Number(9000), Uint(W64)) && Encoding(Number(9000), Uint(W64)) == Ok([0, 0, 0, 0, 0, 0, 0x23, 0x28])
  {
    SmallNumberBytes(9000, 8);
    ZeroBytes(6);
    hide BigEndian;
    assert EncodeUnsigned(9000, W64) == [0, 0, 0, 0, 0, 0, 0x23, 0x28];
  }

  lemma ExampleText()
    ensures HasType(Text(BTC), Str) && Encoding(Text(BTC), Str) == Ok([0, 0, 0, 3, 0x42, 0x54, 0x43])
  {
    SmallNumberBytes(3, 4);
    ZeroBytes(2);
    hide BigEndian;
    assert Length(3) == [0, 0, 0, 3];
    hide Length;
    assert EncodeBytes(BTC) == [0, 0, 0, 3, 0x42, 0x54, 0x43];
  }

  lemma ExampleParts()
    ensures HasType(Number(1), Uint(W8)) && Encoding(Number(1), Uint(W8)) == Ok([1])
    ensures HasType(Number(2), Uint(W8)) && Encoding(Number(2), Uint(W8)) == Ok([2])
  {
    assert EncodeUnsigned(1, W8) == [1] && EncodeUnsigned(2, W8) == [2];
  }

  lemma ExampleList()
    ensures HasType(LIST, Slice(Int(W16))) && Encoding(LIST, Slice(Int(W16))) == Ok([0, 0, 0, 2, 0, 10, 0, 11])
  {
    SmallNumberBytes(10, 2);
    SmallNumberBytes(11, 2);
    SmallNumberBytes(2, 4);
    ZeroBytes(2);
    hide BigEndian;
    assert EncodeUnsigned(10, W16) == [0, 10] && EncodeUnsigned(11, W16) == [0, 11] && Length(2) == [0, 0, 0, 2];
    hide EncodeUnsigned, Length;
    ExampleItems();
    hide ItemsEncoding;
    assert Encoding(LIST, Slice(Int(W16))).value == [0, 0, 0, 2, 0, 10, 0, 11];
  }

  lemma ExampleItems()
    requires EncodeUnsigned(10, W16) == [0, 10] && EncodeUnsigned(11, W16) == [0, 11]
    ensures (forall x :: x in LIST.items ==> HasType(x, Int(W16)))
         && ItemsEncoding(LIST.items, Int(W16)) == Ok([0, 10, 0, 11])
  {
    hide EncodeUnsigned;
    assert LIST.items[1..] == [Number(11)];
    assert ItemsEncoding([Number(11)], Int(W16)).value == [0, 11];
    assert ItemsEncoding(LIST.items, Int(W16)).value == [0, 10, 0, 11];
  }

  lemma ExampleInner()
    ensures HasType(INNER, Struct(INNER_FIELDS)) && Encoding(INNER, Struct(INNER_FIELDS)) == Ok([1, 2])
  {
    ExampleParts();
    FieldInFront(Number(2), INNER_FIELDS[1], [], [], [2], []);
    assert [Number(2)] + [] == [Number(2)] && [INNER_FIELDS[1]] + [] == [INNER_FIELDS[1]];
    assert FieldsEncoding([Number(2)], [INNER_FIELDS[1]]).value == [2];
    FieldInFront(Number(1), INNER_FIELDS[0], [Number(2)], [INNER_FIELDS[1]], [1], [2]);
    assert [INNER_FIELDS[0]] + [INNER_FIELDS[1]] == INNER_FIELDS && [Number(1)] + [Number(2)] == INNER.values;
    assert FieldsEncoding(INNER.values, INNER_FIELDS).value == [1, 2];
  }

  lemma ExampleTail()
    ensures HasType(INNER, IN.goType) && HasType(LIST, ARR.goType)
    ensures FieldsEncoding([INNER, LIST], [IN, ARR]) == Ok([1, 2, 0, 0, 0, 2, 0, 10, 0, 11])
  {
    hide Encoding, HasType;
    ExampleList();
    ExampleInner();
    var arr: bytes := [0, 0, 0, 2, 0, 10, 0, 11];
    FieldInFront(LIST, ARR, [], [], arr, []);
    assert [LIST] + [] == [LIST] && [ARR] + [] == [ARR] && arr + [] == arr;
    FieldInFront(INNER, IN, [LIST], [ARR], [1, 2], arr);
    assert [INNER] + [LIST] == [INNER, LIST] && [IN] + [ARR] == [IN, ARR];
    assert [1, 2] + arr == [1, 2, 0, 0, 0, 2, 0, 10, 0, 11];
  }

  /** The example of chain/pkg/obi/encode_test.go has exactly the bytes that are expected there ... */
  lemma ExampleIsEncoded()
    ensures HasType(EXAMPLE_VALUE, EXAMPLE_TYPE)
    ensures Encoding(EXAMPLE_VALUE, EXAMPLE_TYPE)
         == Ok([0x0, 0x0, 0x0, 0x3, 0x42, 0x54, 0x43, 0x0, 0x0, 0x0, 0x0, 0x0, 0x0, 0x23, 0x28, 0x1, 0x2,
                0x0, 0x0, 0x0, 0x2, 0x0, 0xa, 0x0, 0xb])
  {
    hide Encoding, HasType, FieldsEncoding;
    ExampleNumber();
    ExampleText();
    ExampleTail();
    var tail: bytes := [1, 2, 0, 0, 0, 2, 0, 10, 0, 11];
    var px: bytes := [0, 0, 0, 0, 0, 0, 0x23, 0x28];
    var symbol: bytes := [0, 0, 0, 3, 0x42, 0x54, 0x43];
    FieldInFront(Number(9000), PX, [INNER, LIST], [IN, ARR], px, tail);
    FieldInFront(Text(BTC), SYMBOL, [Number(9000)] + [INNER, LIST], [PX] + [IN, ARR], symbol, px + tail);
    var values, fields := [Text(BTC)] + ([Number(9000)] + [INNER, LIST]), [SYMBOL] + ([PX] + [IN, ARR]);
    assert values == EXAMPLE_VALUE.values && fields == EXAMPLE_TYPE.fields;
    RecordUnfolds(values, fields);
    assert symbol + (px + tail)
        == [0x0, 0x0, 0x0, 0x3, 0x42, 0x54, 0x43, 0x0, 0x0, 0x0, 0x0, 0x0, 0x0, 0x23, 0x28, 0x1, 0x2,
            0x0, 0x0, 0x0, 0x2, 0x0, 0xa, 0x0, 0xb];
  }

  lemma RecordUnfolds(values: seq<Value>, fields: seq<Field>)
    requires |values| == |fields| && forall i :: 0 <= i < |fields| ==> HasType(values[i], fields[i].goType)
    ensures HasType(Record(values), Struct(fields))
    ensures Encoding(Record(values), Struct(fields)) == FieldsEncoding(values, fields)
  {
    hide FieldsEncoding;
  }

  lemma FieldsSchemaInFront(name: string, t: GoType, text: string, fields: seq<Field>, rest: string)
    requires S.Schema(t) == Ok(text) && fields != [] && S.FieldsSchema(fields) == Ok(rest)
    ensures S.FieldsSchema([Field(Some(name), t)] + fields) == Ok(name + ":" + text + "," + rest)
    ensures S.FieldsSchema([Field(Some(name), t)]) == Ok(name + ":" + text)
  {
    hide S.Schema;
    assert ([Field(Some(name), t)] + fields)[1..] == fields;
  }

  lemma NestedText(nested: string, list: string)
    requires nested == "{" + ("a" + ":" + "u8" + "," + ("b" + ":" + "u8")) + "}" && list == "arr" + ":" + "[i16]"
    ensures nested == "{a:u8,b:u8}" && list == "arr:[i16]"
  {
  }

  lemma FrontAndBack(open: string, a: string, b: string, c: string, close: string)
    ensures open + (a + (b + c)) + close == (open + a + b) + (c + close)
  {
  }

  lemma FrontText()
    ensures "{" + ("symbol" + ":" + "string" + ",") + ("px" + ":" + "u64" + ",") == "{symbol:string,px:u64,"
  {
  }

  lemma BackText(nested: string, list: string)
    requires nested == "{a:u8,b:u8}" && list == "arr:[i16]"
    ensures ("in" + ":" + nested + "," + list) + "}" == "in:{a:u8,b:u8},arr:[i16]}"
  {
  }

  /** ... and its type the schema expected in schema_test.go. */
  lemma ExampleSchemaIsPrinted()
    ensures S.Schema(EXAMPLE_TYPE) == Ok("{symbol:string,px:u64," + "in:{a:u8,b:u8},arr:[i16]}")
  {
    assert "u" + "8" == "u8" && "u" + "64" == "u64" && "[" + ("i" + "16") + "]" == "[i16]";
    hide S.FieldsSchema;
    var b, arr := [INNER_FIELDS[1]], [ARR];
    var inner := "b" + ":" + "u8";
    LastFieldSchema("b", Uint(W8), "u8");
    FieldsSchemaInFront("a", Uint(W8), "u8", b, inner);
    assert [INNER_FIELDS[0]] + b == INNER_FIELDS;
    var nested := "{" + ("a" + ":" + "u8" + "," + inner) + "}";
    LastFieldSchema("arr", Slice(Int(W16)), "[i16]");
    var list := "arr" + ":" + "[i16]";
    FieldsSchemaInFront("in", Struct(INNER_FIELDS), nested, arr, list);
    var two := "in" + ":" + nested + "," + list;
    FieldsSchemaInFront("px", Uint(W64), "u64", [IN] + arr, two);
    var three := "px" + ":" + "u64" + "," + two;
    FieldsSchemaInFront("symbol", Str, "string", [PX] + ([IN] + arr), three);
    assert [SYMBOL] + ([PX] + ([IN] + arr)) == EXAMPLE_TYPE.fields;
    NestedText(nested, list);
    FrontText();
    BackText(nested, list);
    FrontAndBack("{", "symbol" + ":" + "string" + ",", "px" + ":" + "u64" + ",", two, "}");
  }

  lemma LastFieldSchema(name: string, t: GoType, text: string)
    requires S.Schema(t) == Ok(text)
    ensures S.FieldsSchema([Field(Some(name), t)]) == Ok(name + ":" + text)
  {
    hide S.Schema;
  }

  // ---------- what has a schema ----------

  /** Nothing of an unlisted kind, no empty struct, and a name for every field. */
  predicate HasSchema(t: GoType) {
    match t
    case Slice(elem) => HasSchema(elem)
    case Struct(fields) => fields != [] && forall f :: f in fields ==> f.tag.Some? && HasSchema(f.goType)
    case Other => false
    case _ => true
  }

  lemma {:induction false} SchemaExistsIff(t: GoType)
    ensures S.Schema(t).Ok? <==> HasSchema(t)
    decreases t, 0
  {
    match t
    case Slice(elem) => SchemaExistsIff(elem);
    case Struct(fields) => FieldsSchemaExistsIff(fields);
    case _ =>
  }

  lemma {:induction false} FieldsSchemaExistsIff(fields: seq<Field>)
    ensures S.FieldsSchema(fields).Ok? <==> forall f :: f in fields ==> f.tag.Some? && HasSchema(f.goType)
    decreases fields, 1
  {
    if fields != [] {
      var first := fields[0];
      assert first.goType < first;
      SchemaExistsIff(first.goType);
      FieldsSchemaExistsIff(fields[1..]);
      hide S.Schema, HasSchema;
      assert fields == [first] + fields[1..];
    }
  }
}
