/** Encoding and decoding undo each other, and encodings are self-delimiting. */
module ObiRoundTrip {
  import opened MachineTypes
  import opened Obi

  /** The type contains no kind the codec does not list. */
  predicate Supported(t: GoType) {
    match t
    case Slice(elem) => Supported(elem)
    case Struct(fields) => forall f :: f in fields ==> Supported(f.goType)
    case Other => false
    case _ => true
  }

  lemma {:induction false} SupportedTypesEncode(v: Value, t: GoType)
    requires HasType(v, t) && Supported(t)
    ensures Encoding(v, t).Ok?
    decreases t, 0, 0
  {
    match t
    case Slice(elem) =>
      if t != BYTE_SLICE {
        SupportedItemsEncode(v.items, elem);
      }
    case Struct(fields) => SupportedFieldsEncode(v.values, fields);
    case _ =>
  }

  lemma {:induction false} SupportedItemsEncode(items: seq<Value>, elem: GoType)
    requires Supported(elem) && forall x :: x in items ==> HasType(x, elem)
    ensures ItemsEncoding(items, elem).Ok?
    decreases elem, 1, |items|
  {
    if items != [] {
      SupportedTypesEncode(items[0], elem);
      SupportedItemsEncode(items[1..], elem);
    }
  }

  lemma {:induction false} SupportedFieldsEncode(values: seq<Value>, fields: seq<Field>)
    requires |values| == |fields| && forall i :: 0 <= i < |fields| ==> HasType(values[i], fields[i].goType)
    requires forall f :: f in fields ==> Supported(f.goType)
    ensures FieldsEncoding(values, fields).Ok?
    decreases fields, 1, 0
  {
    if fields != [] {
      var first := fields[0];
      assert first.goType < first && first in fields;
      SupportedTypesEncode(values[0], first.goType);
      SupportedFieldsEncode(values[1..], fields[1..]);
    }
  }

  // ---------- when a value decodes again ----------

  /** Every text of v passes the decoder's truncated length check when `tail` more bytes follow v. */
  predicate Decodable(v: Value, t: GoType, tail: nat)
    requires HasType(v, t) && Encoding(v, t).Ok?
    decreases t, 0, 0
  {
    match t
    case Str => PassesLengthCheck(v.text, tail)
    case Slice(elem) =>
      if t == BYTE_SLICE then PassesLengthCheck(v.text, tail) else ItemsDecodable(v.items, elem, tail)
    case Struct(fields) => FieldsDecodable(v.values, fields, tail)
    case _ => true
  }

  predicate ItemsDecodable(items: seq<Value>, elem: GoType, tail: nat)
    requires forall x :: x in items ==> HasType(x, elem)
    requires ItemsEncoding(items, elem).Ok?
    decreases elem, 1, |items|
  {
    items != [] ==>
      && Decodable(items[0], elem, |ItemsEncoding(items[1..], elem).value| + tail)
      && ItemsDecodable(items[1..], elem, tail)
  }

  predicate FieldsDecodable(values: seq<Value>, fields: seq<Field>, tail: nat)
    requires |values| == |fields| && forall i :: 0 <= i < |fields| ==> HasType(values[i], fields[i].goType)
    requires FieldsEncoding(values, fields).Ok?
    decreases fields, 1, 0
  {
    fields != [] ==>
      var first := fields[0];
      assert first.goType < first;
      && Decodable(values[0], first.goType, |FieldsEncoding(values[1..], fields[1..]).value| + tail)
      && FieldsDecodable(values[1..], fields[1..], tail)
  }

  /** Decoding an encoding with anything after it gives back the value and what came after it,
      exactly if every text passes the length check; otherwise it fails. */
  lemma {:induction false} DecodingUndoesEncoding(v: Value, t: GoType, rest: bytes)
    requires HasType(v, t) && LengthsFit(v) && Encoding(v, t).Ok?
    ensures Decoding(t, Encoding(v, t).value + rest)
         == if Decodable(v, t, |rest|) then Ok((v, rest)) else Err(OutOfRange)
    decreases t, 0, 0
  {
    hide EncodeUnsigned, DecodeUnsigned, EncodeBytes, DecodeBytes, PassesLengthCheck;
    match t
    case Uint(w) => UnsignedRoundTrip(v.n, w, rest);
    case Int(w) =>
      UnsignedRoundTrip(Unsigned(v.n, w), w, rest);
      SignedRoundTrip(v.n, w);
    case Str => BytesRoundTripIff(v.text, rest);
    case Slice(elem) =>
      if t == BYTE_SLICE {
        BytesRoundTripIff(v.text, rest);
      } else {
        var body := ItemsEncoding(v.items, elem).value;
        SliceIsLengthThenItems(elem, v.items, rest);
        UnsignedRoundTrip(|v.items|, W32, body + rest);
        ItemsDecodingUndoesEncoding(v.items, elem, rest);
      }
    case Struct(fields) => FieldsDecodingUndoesEncoding(v.values, fields, rest);
    case Other =>
  }

  lemma SignedRoundTrip(n: int, w: Width)
    requires -(w.Range() / 2) <= n < w.Range() / 2
    ensures Signed(Unsigned(n, w), w) == n
  {
    WrapAround(n, w.Range());
  }

  /** A number between the range's negative and the range leaves itself, or itself plus the range. */
  lemma WrapAround(n: int, range: int)
    requires range > 0 && -range <= n < range
    ensures n % range == if n < 0 then n + range else n
  {
  }

  lemma {:induction false} ItemsDecodingUndoesEncoding(items: seq<Value>, elem: GoType, rest: bytes)
    requires forall x :: x in items ==> HasType(x, elem) && LengthsFit(x)
    requires ItemsEncoding(items, elem).Ok?
    ensures ItemsDecoding(elem, |items|, ItemsEncoding(items, elem).value + rest)
         == if ItemsDecodable(items, elem, |rest|) then Ok((items, rest)) else Err(OutOfRange)
    decreases elem, 1, |items|
  {
    hide EncodeUnsigned, DecodeUnsigned, EncodeBytes, DecodeBytes, PassesLengthCheck, Encoding, Decoding, Decodable;
    if items == [] {
      assert [] + rest == rest;
    } else {
      var a, b := Encoding(items[0], elem).value, ItemsEncoding(items[1..], elem).value;
      assert a + b + rest == a + (b + rest);
      DecodingUndoesEncoding(items[0], elem, b + rest);
      ItemsDecodingUndoesEncoding(items[1..], elem, rest);
      assert [items[0]] + items[1..] == items;
    }
  }

  lemma {:induction false} FieldsDecodingUndoesEncoding(values: seq<Value>, fields: seq<Field>, rest: bytes)
    requires |values| == |fields| && forall i :: 0 <= i < |fields| ==> HasType(values[i], fields[i].goType)
    requires forall x :: x in values ==> LengthsFit(x)
    requires FieldsEncoding(values, fields).Ok?
    ensures FieldsDecoding(fields, FieldsEncoding(values, fields).value + rest)
         == if FieldsDecodable(values, fields, |rest|) then Ok((values, rest)) else Err(OutOfRange)
    decreases fields, 1, 0
  {
    hide EncodeUnsigned, DecodeUnsigned, EncodeBytes, DecodeBytes, PassesLengthCheck, Encoding, Decoding, Decodable;
    if fields == [] {
      assert [] + rest == rest;
    } else {
      var first := fields[0];
      assert first.goType < first;
      var a, b := Encoding(values[0], first.goType).value, FieldsEncoding(values[1..], fields[1..]).value;
      assert a + b + rest == a + (b + rest);
      DecodingUndoesEncoding(values[0], first.goType, b + rest);
      FieldsDecodingUndoesEncoding(values[1..], fields[1..], rest);
      assert [values[0]] + values[1..] == values;
    }
  }

  /** Below 4 GiB in all, every text passes its check. */
  lemma {:induction false} ShortDataIsDecodable(v: Value, t: GoType, tail: nat)
    requires HasType(v, t) && Encoding(v, t).Ok? && |Encoding(v, t).value| + tail < TWO_TO_32
    ensures Decodable(v, t, tail)
    decreases t, 0, 0
  {
    match t
    case Slice(elem) =>
      if t != BYTE_SLICE {
        ShortItemsAreDecodable(v.items, elem, tail);
      }
    case Struct(fields) => ShortFieldsAreDecodable(v.values, fields, tail);
    case _ =>
  }

  lemma {:induction false} ShortItemsAreDecodable(items: seq<Value>, elem: GoType, tail: nat)
    requires forall x :: x in items ==> HasType(x, elem)
    requires ItemsEncoding(items, elem).Ok? && |ItemsEncoding(items, elem).value| + tail < TWO_TO_32
    ensures ItemsDecodable(items, elem, tail)
    decreases elem, 1, |items|
  {
    if items != [] {
      ShortDataIsDecodable(items[0], elem, |ItemsEncoding(items[1..], elem).value| + tail);
      ShortItemsAreDecodable(items[1..], elem, tail);
    }
  }

  lemma {:induction false} ShortFieldsAreDecodable(values: seq<Value>, fields: seq<Field>, tail: nat)
    requires |values| == |fields| && forall i :: 0 <= i < |fields| ==> HasType(values[i], fields[i].goType)
    requires FieldsEncoding(values, fields).Ok? && |FieldsEncoding(values, fields).value| + tail < TWO_TO_32
    ensures FieldsDecodable(values, fields, tail)
    decreases fields, 1, 0
  {
    if fields != [] {
      var first := fields[0];
      assert first.goType < first;
      ShortDataIsDecodable(values[0], first.goType, |FieldsEncoding(values[1..], fields[1..]).value| + tail);
      ShortFieldsAreDecodable(values[1..], fields[1..], tail);
    }
  }

  // ---------- what decodes is an encoding ----------

  /** Whatever the decoder accepts is the one encoding of the value it returns. */
  lemma {:induction false} EncodingUndoesDecoding(t: GoType, data: bytes)
    requires Decoding(t, data).Ok?
    ensures var (v, rest) := Decoding(t, data).value;
            && HasType(v, t) && LengthsFit(v)
            && Encoding(v, t).Ok? && data == Encoding(v, t).value + rest
    decreases t, 0, 0
  {
    hide EncodeUnsigned, DecodeUnsigned, EncodeBytes, DecodeBytes;
    match t
    case Uint(w) => DecodedUnsignedEncodes(data, w);
    case Int(w) =>
      DecodedUnsignedEncodes(data, w);
      UnsignedOfSigned(DecodeUnsigned(data, w).value.0, w);
    case Str => DecodedBytesEncode(data);
    case Slice(elem) =>
      if t == BYTE_SLICE {
        DecodedBytesEncode(data);
      } else {
        DecodedUnsignedEncodes(data, W32);
        var (length, rem) := DecodeUnsigned(data, W32).value;
        EncodingUndoesItemsDecoding(elem, length, rem);
        var (items, rest) := ItemsDecoding(elem, length, rem).value;
        SliceIsLengthThenItems(elem, items, rest);
      }
    case Struct(fields) => EncodingUndoesFieldsDecoding(fields, data);
    case Other =>
  }

  lemma UnsignedOfSigned(n: nat, w: Width)
    requires n < w.Range()
    ensures Unsigned(Signed(n, w), w) == n
    ensures -(w.Range() / 2) <= Signed(n, w) < w.Range() / 2
  {
    WrapAround(Signed(n, w), w.Range());
  }

  lemma {:induction false} EncodingUndoesItemsDecoding(elem: GoType, count: nat, data: bytes)
    requires ItemsDecoding(elem, count, data).Ok?
    ensures var (items, rest) := ItemsDecoding(elem, count, data).value;
            && |items| == count
            && (forall x :: x in items ==> HasType(x, elem) && LengthsFit(x))
            && ItemsEncoding(items, elem).Ok? && data == ItemsEncoding(items, elem).value + rest
    decreases elem, 1, count
  {
    if count > 0 {
      EncodingUndoesDecoding(elem, data);
      var (v, rem) := Decoding(elem, data).value;
      EncodingUndoesItemsDecoding(elem, count - 1, rem);
      var (items, rest) := ItemsDecoding(elem, count - 1, rem).value;
      assert ([v] + items)[1..] == items;
      assert data == Encoding(v, elem).value + ItemsEncoding(items, elem).value + rest;
    }
  }

  lemma {:induction false} EncodingUndoesFieldsDecoding(fields: seq<Field>, data: bytes)
    requires FieldsDecoding(fields, data).Ok?
    ensures var (values, rest) := FieldsDecoding(fields, data).value;
            && |values| == |fields|
            && (forall i :: 0 <= i < |fields| ==> HasType(values[i], fields[i].goType))
            && (forall x :: x in values ==> LengthsFit(x))
            && FieldsEncoding(values, fields).Ok? && data == FieldsEncoding(values, fields).value + rest
    decreases fields, 1, 0
  {
    if fields != [] {
      var first := fields[0];
      assert first.goType < first;
      EncodingUndoesDecoding(first.goType, data);
      var (v, rem) := Decoding(first.goType, data).value;
      EncodingUndoesFieldsDecoding(fields[1..], rem);
      var (values, rest) := FieldsDecoding(fields[1..], rem).value;
      assert ([v] + values)[1..] == values;
      assert data == Encoding(v, first.goType).value + FieldsEncoding(values, fields[1..]).value + rest;
    }
  }

  // ---------- the bijection ----------

  /** A value that can be encoded decodes again exactly if all its lengths fit 32 bits and all its
      texts pass the truncated length check. */
  lemma RoundTripIff(v: Value, t: GoType)
    requires HasType(v, t) && Encoding(v, t).Ok?
    ensures DecodeAll(t, Encoding(v, t).value) == Ok(v) <==> LengthsFit(v) && Decodable(v, t, 0)
  {
    var data := Encoding(v, t).value;
    assert data + [] == data;
    if LengthsFit(v) {
      DecodingUndoesEncoding(v, t, []);
    }
    if DecodeAll(t, data) == Ok(v) {
      EncodingUndoesDecoding(t, data);
    }
  }

  const TEXT_AND_BYTES := Struct([Field(None, Str), Field(None, BYTE_SLICE)])

  /** The condition does fail: a text of one byte in front of a byte slice whose encoding has
      2^32 - 1 bytes leaves 2^32 of them, which the truncated check takes for none. */
  lemma LongRoundTripFails(x: byte) returns (v: Value)
    ensures HasType(v, TEXT_AND_BYTES) && LengthsFit(v) && Encoding(v, TEXT_AND_BYTES).Ok?
    ensures v.values[0] == Text([x])
    ensures DecodeAll(TEXT_AND_BYTES, Encoding(v, TEXT_AND_BYTES).value) == Err(OutOfRange)
  {
    var b := seq(TWO_TO_32 - 5, _ => 0);
    v := Record([Text([x]), Text(b)]);
    LongTextFails(x, b);
  }

  lemma LongTextFails(x: byte, b: bytes)
    requires |b| == TWO_TO_32 - 5
    ensures var v := Record([Text([x]), Text(b)]);
            && HasType(v, TEXT_AND_BYTES) && LengthsFit(v) && Encoding(v, TEXT_AND_BYTES).Ok?
            && DecodeAll(TEXT_AND_BYTES, Encoding(v, TEXT_AND_BYTES).value) == Err(OutOfRange)
  {
    hide BigEndian;
    var v := Record([Text([x]), Text(b)]);
    var values, fields := v.values, TEXT_AND_BYTES.fields;
    assert HasType(v, TEXT_AND_BYTES) && values[1..] == [Text(b)] && fields[1..] == [fields[1]];
    assert values[1..][1..] == [] && fields[1..][1..] == [];
    var second := Encoding(Text(b), BYTE_SLICE).value;
    assert FieldsEncoding(values[1..][1..], fields[1..][1..]) == Ok([]);
    assert second + [] == second;
    assert FieldsEncoding(values[1..], fields[1..]) == Ok(second);
    assert |second| == TWO_TO_32 - 1;
    assert Encoding(values[0], fields[0].goType).Ok? && FieldsEncoding(values, fields).Ok?;
    assert !PassesLengthCheck([x], |second|);
    var data := Encoding(v, TEXT_AND_BYTES).value;
    assert !FieldsDecodable(values, fields, 0);
    assert data + [] == data;
    DecodingUndoesEncoding(v, TEXT_AND_BYTES, []);
  }

  /** Below 4 GiB the encoding is a bijection between the values of a type and the data Decode
      accepts for it. */
  lemma ShortRoundTrip(v: Value, t: GoType)
    requires HasType(v, t) && LengthsFit(v) && Encoding(v, t).Ok? && |Encoding(v, t).value| < TWO_TO_32
    ensures DecodeAll(t, Encoding(v, t).value) == Ok(v)
  {
    ShortDataIsDecodable(v, t, 0);
    RoundTripIff(v, t);
  }

  lemma AcceptedDataIsCanonical(t: GoType, data: bytes)
    requires DecodeAll(t, data).Ok?
    ensures HasType(DecodeAll(t, data).value, t)
    ensures Encoding(DecodeAll(t, data).value, t) == Ok(data)
  {
    EncodingUndoesDecoding(t, data);
    var (v, rest) := Decoding(t, data).value;
    assert Encoding(v, t).value + [] == Encoding(v, t).value;
  }

  // ---------- self-delimiting ----------

  /** Two encodings of the same type with something after them can only be equal piece by piece.
      Unlike decoding, this does not depend on the total length. */
  lemma {:induction false} EncodingsAreSelfDelimiting(t: GoType, v: Value, rest: bytes, w: Value, rest': bytes)
    requires HasType(v, t) && LengthsFit(v) && Encoding(v, t).Ok?
    requires HasType(w, t) && LengthsFit(w) && Encoding(w, t).Ok?
    requires Encoding(v, t).value + rest == Encoding(w, t).value + rest'
    ensures v == w && rest == rest'
    decreases t, 0, 0
  {
    hide EncodeUnsigned, EncodeBytes;
    match t
    case Uint(width) => SameUnsigned(v.n, rest, w.n, rest', width);
    case Int(width) => SameSigned(v.n, rest, w.n, rest', width);
    case Str => SameText(v.text, rest, w.text, rest');
    case Slice(elem) =>
      if t == BYTE_SLICE {
        SameText(v.text, rest, w.text, rest');
      } else {
        SliceIsLengthThenItems(elem, v.items, rest);
        SliceIsLengthThenItems(elem, w.items, rest');
        var a, b := ItemsEncoding(v.items, elem).value, ItemsEncoding(w.items, elem).value;
        SameUnsigned(|v.items|, a + rest, |w.items|, b + rest', W32);
        ItemsAreSelfDelimiting(elem, v.items, rest, w.items, rest');
      }
    case Struct(fields) => FieldsAreSelfDelimiting(fields, v.values, rest, w.values, rest');
    case Other =>
  }

  lemma SliceIsLengthThenItems(elem: GoType, items: seq<Value>, rest: bytes)
    requires elem != Uint(W8) && |items| < TWO_TO_32
    requires HasType(List(items), Slice(elem)) && ItemsEncoding(items, elem).Ok?
    ensures Encoding(List(items), Slice(elem)).Ok?
    ensures Encoding(List(items), Slice(elem)).value + rest
         == EncodeUnsigned(|items|, W32) + (ItemsEncoding(items, elem).value + rest)
  {
    hide EncodeUnsigned, ItemsEncoding;
    var length, body := EncodeUnsigned(|items|, W32), ItemsEncoding(items, elem).value;
    assert Encoding(List(items), Slice(elem)) == Ok(length + body);
    assert length + body + rest == length + (body + rest);
  }

  lemma SameSigned(n: int, rest: bytes, m: int, rest': bytes, w: Width)
    requires -(w.Range() / 2) <= n < w.Range() / 2 && -(w.Range() / 2) <= m < w.Range() / 2
    requires EncodeUnsigned(Unsigned(n, w), w) + rest == EncodeUnsigned(Unsigned(m, w), w) + rest'
    ensures n == m && rest == rest'
  {
    SameUnsigned(Unsigned(n, w), rest, Unsigned(m, w), rest', w);
    SignedRoundTrip(n, w);
    SignedRoundTrip(m, w);
  }

  lemma SameUnsigned(n: nat, rest: bytes, m: nat, rest': bytes, w: Width)
    requires n < w.Range() && m < w.Range()
    requires EncodeUnsigned(n, w) + rest == EncodeUnsigned(m, w) + rest'
    ensures n == m && rest == rest'
  {
    UnsignedRoundTrip(n, w, rest);
    UnsignedRoundTrip(m, w, rest');
  }

  lemma SameText(b: bytes, rest: bytes, c: bytes, rest': bytes)
    requires |b| < TWO_TO_32 && |c| < TWO_TO_32
    requires EncodeBytes(b) + rest == EncodeBytes(c) + rest'
    ensures b == c && rest == rest'
  {
    TextIsLengthThenBytes(b, rest);
    TextIsLengthThenBytes(c, rest');
    hide EncodeBytes, EncodeUnsigned;
    SameUnsigned(|b|, b + rest, |c|, c + rest', W32);
    SameLengthSplit(b, rest, c, rest');
  }

  lemma TextIsLengthThenBytes(b: bytes, rest: bytes)
    requires |b| < TWO_TO_32
    ensures EncodeBytes(b) + rest == EncodeUnsigned(|b|, W32) + (b + rest)
  {}

  lemma {:induction false} ItemsAreSelfDelimiting(elem: GoType, items: seq<Value>, rest: bytes, items': seq<Value>, rest': bytes)
    requires |items| == |items'|
    requires forall x :: x in items || x in items' ==> HasType(x, elem) && LengthsFit(x)
    requires ItemsEncoding(items, elem).Ok? && ItemsEncoding(items', elem).Ok?
    requires ItemsEncoding(items, elem).value + rest == ItemsEncoding(items', elem).value + rest'
    ensures items == items' && rest == rest'
    decreases elem, 1, |items|
  {
    hide EncodeUnsigned, EncodeBytes, Encoding;
    if items == [] {
      assert [] + rest == rest && [] + rest' == rest';
    } else {
      var a, b := ItemsEncoding(items[1..], elem).value, ItemsEncoding(items'[1..], elem).value;
      assert ItemsEncoding(items, elem).value + rest == Encoding(items[0], elem).value + (a + rest);
      assert ItemsEncoding(items', elem).value + rest' == Encoding(items'[0], elem).value + (b + rest');
      EncodingsAreSelfDelimiting(elem, items[0], a + rest, items'[0], b + rest');
      ItemsAreSelfDelimiting(elem, items[1..], rest, items'[1..], rest');
      assert items == [items[0]] + items[1..] && items' == [items'[0]] + items'[1..];
    }
  }

  lemma {:induction false} FieldsAreSelfDelimiting(fields: seq<Field>, values: seq<Value>, rest: bytes, values': seq<Value>, rest': bytes)
    requires |values| == |values'| == |fields|
    requires forall i :: 0 <= i < |fields| ==> HasType(values[i], fields[i].goType) && HasType(values'[i], fields[i].goType)
    requires forall x :: x in values || x in values' ==> LengthsFit(x)
    requires FieldsEncoding(values, fields).Ok? && FieldsEncoding(values', fields).Ok?
    requires FieldsEncoding(values, fields).value + rest == FieldsEncoding(values', fields).value + rest'
    ensures values == values' && rest == rest'
    decreases fields, 1, 0
  {
    hide EncodeUnsigned, EncodeBytes, Encoding;
    if fields == [] {
      assert [] + rest == rest && [] + rest' == rest';
    } else {
      var first := fields[0];
      assert first.goType < first;
      var a, b := FieldsEncoding(values[1..], fields[1..]).value, FieldsEncoding(values'[1..], fields[1..]).value;
      assert FieldsEncoding(values, fields).value + rest == Encoding(values[0], first.goType).value + (a + rest);
      assert FieldsEncoding(values', fields).value + rest' == Encoding(values'[0], first.goType).value + (b + rest');
      EncodingsAreSelfDelimiting(first.goType, values[0], a + rest, values'[0], b + rest');
      FieldsAreSelfDelimiting(fields[1..], values[1..], rest, values'[1..], rest');
      assert values == [values[0]] + values[1..] && values' == [values'[0]] + values'[1..];
    }
  }
}
