/** The loops of the Go encoder and decoder, proved to compute Encoding and Decoding. */
module ObiCodec {
  import opened MachineTypes
  import opened Obi

  lemma AfterAssociative(a: bytes, b: bytes, rest: Result<bytes, Error>)
    ensures After(Ok(a), After(Ok(b), rest)) == After(Ok(a + b), rest)
    ensures After(Ok([]), rest) == rest
    ensures After(Ok(a), Ok([])) == Ok(a)
  {
    assert a + [] == a;
    if rest.Ok? {
      assert a + (b + rest.value) == a + b + rest.value;
      assert [] + rest.value == rest.value;
    }
  }

  method Encode(v: Value, t: GoType) returns (r: Result<bytes, Error>)
    requires HasType(v, t)
    ensures r == Encoding(v, t)
    decreases t
  {
    match t
    case Uint(w) => return Ok(EncodeUnsigned(v.n, w));
    case Int(w) => return Ok(EncodeUnsigned(Unsigned(v.n, w), w));
    case Str => return Ok(EncodeBytes(v.text));
    case Slice(elem) =>
      if elem == Uint(W8) {
        return Ok(EncodeBytes(v.text));
      }
      var items := v.items;
      var res := Length(|items|);
      for i := 0 to |items|
        invariant Encoding(v, t) == After(Ok(res), ItemsEncoding(items[i..], elem))
      {
        hide Encoding, Length;
        assert items[i..][0] == items[i] && items[i..][1..] == items[i + 1..];
        var each := Encode(items[i], elem);
        if each.Err? {
          return each;
        }
        AfterAssociative(res, each.value, ItemsEncoding(items[i + 1..], elem));
        res := res + each.value;
      }
      AfterAssociative(res, [], Ok([]));
      return Ok(res);
    case Struct(fields) =>
      var values := v.values;
      var res: bytes := [];
      AfterAssociative([], [], FieldsEncoding(values, fields));
      for i := 0 to |fields|
        invariant Encoding(v, t) == After(Ok(res), FieldsEncoding(values[i..], fields[i..]))
      {
        var field := fields[i];
        assert field.goType < field;
        hide Encoding;
        assert fields[i..][0] == field && fields[i..][1..] == fields[i + 1..];
        assert values[i..][0] == values[i] && values[i..][1..] == values[i + 1..];
        var each := Encode(values[i], field.goType);
        if each.Err? {
          return each;
        }
        AfterAssociative(res, each.value, FieldsEncoding(values[i + 1..], fields[i + 1..]));
        res := res + each.value;
      }
      AfterAssociative(res, [], Ok([]));
      return Ok(res);
    case Other => return Err(Unsupported);
  }

  /** What the decoding of a sequence has produced so far, in front of what the rest produces. */
  function Onto(done: seq<Value>, rest: Result<(seq<Value>, bytes), Error>): Result<(seq<Value>, bytes), Error> {
    match rest
    case Err(e) => Err(e)
    case Ok((values, rem)) => Ok((done + values, rem))
  }

  lemma OntoOneMore(done: seq<Value>, v: Value, rest: Result<(seq<Value>, bytes), Error>, rem: bytes)
    ensures Onto(done, Onto([v], rest)) == Onto(done + [v], rest)
    ensures Onto([], rest) == rest
    ensures Onto(done, Ok(([], rem))) == Ok((done, rem))
  {
    assert done + [] == done;
    if rest.Ok? {
      assert done + ([v] + rest.value.0) == done + [v] + rest.value.0;
      assert [] + rest.value.0 == rest.value.0;
    }
  }

  method DecodeImpl(t: GoType, data: bytes) returns (r: Result<(Value, bytes), Error>)
    ensures r == Decoding(t, data)
    decreases t
  {
    match t
    case Uint(w) =>
      var decoded := DecodeUnsigned(data, w);
      if decoded.Err? { return Err(decoded.error); }
      return Ok((Number(decoded.value.0), decoded.value.1));
    case Int(w) =>
      var decoded := DecodeUnsigned(data, w);
      if decoded.Err? { return Err(decoded.error); }
      return Ok((Number(Signed(decoded.value.0, w)), decoded.value.1));
    case Str => return TextDecoding(data);
    case Slice(elem) =>
      if elem == Uint(W8) {
        return TextDecoding(data);
      }
      var prefix := DecodeUnsigned(data, W32);
      if prefix.Err? { return Err(prefix.error); }
      var (length, rem) := prefix.value;
      var slice: seq<Value> := [];
      ghost var whole := ItemsDecoding(elem, length, rem);
      OntoOneMore([], Foreign, whole, []);
      for i := 0 to length
        invariant whole == Onto(slice, ItemsDecoding(elem, length - i, rem))
      {
        hide Decoding;
        var each := DecodeImpl(elem, rem);
        if each.Err? { return Err(each.error); }
        OntoOneMore(slice, each.value.0, ItemsDecoding(elem, length - i - 1, each.value.1), []);
        slice := slice + [each.value.0];
        rem := each.value.1;
      }
      OntoOneMore(slice, Foreign, whole, rem);
      return Ok((List(slice), rem));
    case Struct(fields) =>
      var rem := data;
      var values: seq<Value> := [];
      ghost var whole := FieldsDecoding(fields, data);
      OntoOneMore([], Foreign, whole, []);
      for i := 0 to |fields|
        invariant whole == Onto(values, FieldsDecoding(fields[i..], rem))
      {
        var field := fields[i];
        assert field.goType < field;
        hide Decoding;
        assert fields[i..][0] == field && fields[i..][1..] == fields[i + 1..];
        var each := DecodeImpl(field.goType, rem);
        if each.Err? { return Err(each.error); }
        OntoOneMore(values, each.value.0, FieldsDecoding(fields[i + 1..], each.value.1), []);
        values := values + [each.value.0];
        rem := each.value.1;
      }
      OntoOneMore(values, Foreign, whole, rem);
      return Ok((Record(values), rem));
    case Other => return Err(Unsupported);
  }

  method Decode(t: GoType, data: bytes) returns (r: Result<Value, Error>)
    ensures r == DecodeAll(t, data)
  {
    var decoded := DecodeImpl(t, data);
    if decoded.Err? {
      return Err(decoded.error);
    }
    if |decoded.value.1| != 0 {
      return Err(NotAllConsumed);
    }
    return Ok(decoded.value.0);
  }
}
