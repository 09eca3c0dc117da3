/** The Go schema printer, against the Python parser. */
module ObiSchema {
  import opened MachineTypes
  import opened Obi
  import P = PyObi

  datatype SchemaError = EmptyStruct | NoTag | UnsupportedType

  function WidthName(w: Width): string {
    match w
    case W8 => "8"
    case W16 => "16"
    case W32 => "32"
    case W64 => "64"
  }

  /** The name of a width is its number of bits in decimal. */
  lemma WidthIsNamedInDecimal(w: Width)
    ensures WidthName(w) == P.Decimal(8 * w.Size())
  {
    P.SizesInDecimal();
  }

  function Schema(t: GoType): Result<string, SchemaError>
    decreases t, 0, 0
  {
    match t
    case Uint(w) => Ok("u" + WidthName(w))
    case Int(w) => Ok("i" + WidthName(w))
    case Str => Ok("string")
    case Slice(elem) =>
      if t == BYTE_SLICE then Ok("bytes")
      else
        (match Schema(elem)
         case Err(e) => Err(e)
         case Ok(s) => Ok("[" + s + "]"))
    case Struct(fields) =>
      if fields == [] then Err(EmptyStruct)
      else
        (match FieldsSchema(fields)
         case Err(e) => Err(e)
         case Ok(s) => Ok("{" + s + "}"))
    case Other => Err(UnsupportedType)
  }

  function FieldsSchema(fields: seq<Field>): Result<string, SchemaError>
    decreases fields, 1, 0
  {
    if fields == [] then Ok("")
    else
      var first := fields[0];
      assert first.goType < first;
      if first.tag.None? then Err(NoTag)
      else
        match Schema(first.goType)
        case Err(e) => Err(e)
        case Ok(s) =>
          var text := first.tag.value + ":" + s;
          if |fields| == 1 then Ok(text)
          else
            match FieldsSchema(fields[1..])
            case Err(e) => Err(e)
            case Ok(rest) => Ok(text + "," + rest)
  }

  /** Go's strings.Builder. */
  class Builder {
    var text: string

    constructor ()
      ensures text == ""
    {
      text := "";
    }

    method WriteString(s: string)
      modifies this
      ensures text == old(text) + s
    {
      text := text + s;
    }
  }

  /** Writes the schema of t to the shared builder; after an error the builder holds a part of it. */
  method GetSchemaImpl(s: Builder, t: GoType) returns (error: Option<SchemaError>)
    modifies s
    ensures match Schema(t)
            case Err(e) => error == Some(e)
            case Ok(schema) => error == None && s.text == old(s.text) + schema
    decreases t, 0
  {
    match t
    case Uint(w) =>
      s.WriteString("u" + WidthName(w));
      return None;
    case Int(w) =>
      s.WriteString("i" + WidthName(w));
      return None;
    case Str =>
      s.WriteString("string");
      return None;
    case Slice(elem) =>
      if elem == Uint(W8) {
        s.WriteString("bytes");
        return None;
      }
      s.WriteString("[");
      error := GetSchemaImpl(s, elem);
      if error.Some? {
        return;
      }
      s.WriteString("]");
      Nested(old(s.text), "[", Schema(elem).value, "]");
    case Struct(fields) =>
      if |fields| == 0 {
        return Some(EmptyStruct);
      }
      s.WriteString("{");
      error := WriteFields(s, fields);
      if error.Some? {
        return;
      }
      s.WriteString("}");
      Nested(old(s.text), "{", FieldsSchema(fields).value, "}");
    case Other => return Some(UnsupportedType);
  }

  lemma Nested(before: string, open: string, inner: string, close: string)
    ensures before + open + inner + close == before + (open + inner + close)
  {}

  /** The loop over the fields of a struct. */
  method WriteFields(s: Builder, fields: seq<Field>) returns (error: Option<SchemaError>)
    modifies s
    ensures match FieldsSchema(fields)
            case Err(e) => error == Some(e)
            case Ok(schema) => error == None && s.text == old(s.text) + schema
    decreases fields, 1
  {
    hide Schema;
    ghost var whole := FieldsSchema(fields);
    for i := 0 to |fields|
      invariant var rest := FieldsSchema(fields[i..]);
                match whole
                case Err(e) => rest == Err(e)
                case Ok(schema) => rest.Ok? && old(s.text) + schema == s.text + Separated(i, |fields|, rest.value)
    {
      var field := fields[i];
      assert field.goType < field;
      assert fields[i..][0] == field && fields[i..][1..] == fields[i + 1..];
      if field.tag.None? {
        return Some(NoTag);
      }
      ghost var before := s.text;
      if i != 0 {
        s.WriteString(",");
      }
      s.WriteString(field.tag.value);
      s.WriteString(":");
      error := GetSchemaImpl(s, field.goType);
      if error.Some? {
        return;
      }
      ghost var text := field.tag.value + ":" + Schema(field.goType).value;
      assert s.text == before + (if i != 0 then "," else "") + text;
      if FieldsSchema(fields[i + 1..]).Ok? {
        OneMoreField(before, i, |fields|, text, FieldsSchema(fields[i + 1..]).value);
      }
    }
    assert fields[|fields|..] == [];
    assert s.text + "" == s.text;
    return None;
  }

  /** The text of the fields from i on, with the comma that still has to go in front of it. */
  function Separated(i: nat, n: nat, rest: string): string {
    if 0 < i < n then "," + rest else rest
  }

  lemma OneMoreField(before: string, i: nat, n: nat, text: string, rest: string)
    requires i < n && (i + 1 == n ==> rest == "")
    ensures before + Separated(i, n, if i + 1 == n then text else text + "," + rest)
         == before + (if i != 0 then "," else "") + text + Separated(i + 1, n, rest)
  {
    if i + 1 == n {
      assert text + "" == text;
    }
    if i == 0 {
      assert before + "" == before;
    } else if i + 1 < n {
      assert before + ("," + (text + "," + rest)) == before + "," + text + ("," + rest);
    }
  }

  method GetSchema(t: GoType) returns (r: Result<string, SchemaError>)
    ensures r == Schema(t)
  {
    var s := new Builder();
    var error := GetSchemaImpl(s, t);
    if error.Some? {
      return Err(error.value);
    }
    assert Schema(t).value == "" + Schema(t).value;
    return Ok(s.text);
  }

  // ---------- against the parser ----------

  /** The Python spec of a Go type that has a schema. */
  function PySpec(t: GoType): P.Spec
    requires Schema(t).Ok?
    decreases t, 0
  {
    match t
    case Uint(w) => P.Integer(false, w.Size())
    case Int(w) => P.Integer(true, w.Size())
    case Str => P.String
    case Slice(elem) => if t == BYTE_SLICE then P.Bytes else P.Vector(PySpec(elem))
    case Struct(fields) => P.Struct(PySpecs(fields))
  }

  function PySpecs(fields: seq<Field>): (kvs: seq<P.KeySpec>)
    requires FieldsSchema(fields).Ok?
    ensures |kvs| == |fields|
    decreases fields, 1
  {
    if fields == [] then []
    else
      var first := fields[0];
      assert first.goType < first;
      [P.KeySpec(first.tag.value, PySpec(first.goType))] + PySpecs(fields[1..])
  }

  /** All field names of a type are free of the characters the syntax is made of. */
  predicate PlainTags(t: GoType) {
    match t
    case Slice(elem) => PlainTags(elem)
    case Struct(fields) => forall f :: f in fields ==> (f.tag.Some? ==> P.PlainKey(f.tag.value)) && PlainTags(f.goType)
    case _ => true
  }

  lemma {:induction false} SchemaIsPrinted(t: GoType)
    requires Schema(t).Ok?
    ensures Schema(t).value == P.Print(PySpec(t))
    ensures PlainTags(t) ==> P.Printable(PySpec(t))
    decreases t, 0
  {
    match t
    case Uint(w) =>
    case Int(w) =>
    case Str =>
    case Slice(elem) =>
      if t != BYTE_SLICE {
        SchemaIsPrinted(elem);
      }
    case Struct(fields) => FieldsSchemaIsPrinted(fields);
  }

  lemma {:induction false} FieldsSchemaIsPrinted(fields: seq<Field>)
    requires FieldsSchema(fields).Ok?
    ensures FieldsSchema(fields).value == P.PrintFields(PySpecs(fields))
    ensures PlainTags(Struct(fields)) ==>
              forall kv :: kv in PySpecs(fields) ==> P.PlainKey(kv.key) && P.Printable(kv.spec)
    decreases fields, 1
  {
    if fields != [] {
      var first := fields[0];
      assert first.goType < first;
      SchemaIsPrinted(first.goType);
      if |fields| > 1 {
        FieldsSchemaIsPrinted(fields[1..]);
        assert PlainTags(Struct(fields)) ==> PlainTags(Struct(fields[1..]));
      }
      assert PySpecs(fields)[1..] == PySpecs(fields[1..]);
    }
  }

  /** Printer and parser undo each other: for every type with a schema and plain field names, the
      Python parser rebuilds the type tree from the printed schema, []uint8 as bytes. */
  lemma ParserRebuildsPrintedSchema(t: GoType)
    requires Schema(t).Ok? && PlainTags(t)
    ensures P.FromSpec(Schema(t).value) == Ok(PySpec(t))
  {
    SchemaIsPrinted(t);
    P.ParsingUndoesPrinting(PySpec(t));
  }
}
