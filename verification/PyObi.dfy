/** The Python schema parser. */
module PyObi {
  import opened MachineTypes

  datatype Spec =
    | Integer(signed: bool, sizeInBytes: nat)
    | Vector(intl: Spec)
    | Struct(kvs: seq<KeySpec>)
    | String
    | Bytes

  datatype KeySpec = KeySpec(key: string, spec: Spec)

  datatype Error = CannotParse | NoColon | NotOneSlash

  /** Matches `^(u|i)(8|16|32|64|128|256)$`. */
  function ParseInteger(spec: string): Option<Spec> {
    if spec == [] || (spec[0] != 'u' && spec[0] != 'i') then None
    else
      var bits := spec[1..];
      if bits == "8" then Some(Integer(spec[0] == 'i', 1))
      else if bits == "16" then Some(Integer(spec[0] == 'i', 2))
      else if bits == "32" then Some(Integer(spec[0] == 'i', 4))
      else if bits == "64" then Some(Integer(spec[0] == 'i', 8))
      else if bits == "128" then Some(Integer(spec[0] == 'i', 16))
      else if bits == "256" then Some(Integer(spec[0] == 'i', 32))
      else None
  }

  /** Matches `^<open>.*<close>$` on a text without line breaks. */
  predicate Enclosed(spec: string, open: char, close: char) {
    |spec| >= 2 && spec[0] == open && spec[|spec| - 1] == close
  }

  function Depth(depth: int, c: char): int {
    if c == '{' then depth + 1 else if c == '}' then depth - 1 else depth
  }

  /** The fields of a struct body: cut at the commas outside all inner braces. */
  function SplitFields(body: string, depth: int): (fields: seq<string>)
    ensures fields != []
  {
    if body == [] then [""]
    else if body[0] == ',' && depth == 0 then [""] + SplitFields(body[1..], depth)
    else Glue([body[0]], SplitFields(body[1..], Depth(depth, body[0])))
  }

  /** `front` in front of the first of `fields`. */
  function Glue(front: string, fields: seq<string>): (r: seq<string>)
    requires fields != []
    ensures |r| == |fields|
  {
    [front + fields[0]] + fields[1..]
  }

  /** The position of the first colon. */
  function FirstColon(field: string): Option<nat> {
    if field == [] then None
    else if field[0] == ':' then Some(0)
    else
      match FirstColon(field[1..])
      case None => None
      case Some(i) => Some(i + 1)
  }

  lemma {:induction false} FirstColonFinds(field: string)
    ensures match FirstColon(field)
            case None => ':' !in field
            case Some(i) => i < |field| && field[i] == ':' && ':' !in field[..i]
  {
    if field != [] && field[0] != ':' {
      FirstColonFinds(field[1..]);
      assert field == [field[0]] + field[1..];
      if i :| FirstColon(field) == Some(i) {
        assert field[..i] == [field[0]] + field[1..][..i - 1];
      }
    }
  }

  lemma {:induction false} SplitFieldsAreShort(body: string, depth: int)
    ensures forall f :: f in SplitFields(body, depth) ==> |f| <= |body|
  {
    if body != [] {
      if body[0] == ',' && depth == 0 {
        SplitFieldsAreShort(body[1..], depth);
      } else {
        var fields := SplitFields(body[1..], Depth(depth, body[0]));
        SplitFieldsAreShort(body[1..], Depth(depth, body[0]));
        assert forall i :: 0 <= i < |fields| ==> fields[i] in fields;
      }
    }
  }

  /** PyObiSpec.from_spec: the implementations are tried in the order they are declared. */
  function FromSpec(spec: string): Result<Spec, Error>
    decreases |spec|, 1, 0
  {
    var integer := ParseInteger(spec);
    if integer.Some? then Ok(integer.value)
    else if Enclosed(spec, '[', ']') then
      (match FromSpec(spec[1..|spec| - 1])
       case Err(e) => Err(e)
       case Ok(intl) => Ok(Vector(intl)))
    else if Enclosed(spec, '{', '}') then
      var body := spec[1..|spec| - 1];
      SplitFieldsAreShort(body, 0);
      (match ParseFields(SplitFields(body, 0), |spec|)
       case Err(e) => Err(e)
       case Ok(kvs) => Ok(Struct(kvs)))
    else if spec == "string" then Ok(String)
    else if spec == "bytes" then Ok(Bytes)
    else Err(CannotParse)
  }

  function ParseFields(fields: seq<string>, bound: nat): Result<seq<KeySpec>, Error>
    requires forall f :: f in fields ==> |f| < bound
    decreases bound, 0, |fields|
  {
    if fields == [] then Ok([])
    else
      match ParseField(fields[0], bound)
      case Err(e) => Err(e)
      case Ok(kv) =>
        match ParseFields(fields[1..], bound)
        case Err(e) => Err(e)
        case Ok(rest) => Ok([kv] + rest)
  }

  function ParseField(field: string, bound: nat): Result<KeySpec, Error>
    requires |field| < bound
    decreases |field|, 2, 0
  {
    match FirstColon(field)
    case None => Err(NoColon)
    case Some(i) =>
      FirstColonFinds(field);
      match FromSpec(field[i + 1..])
      case Err(e) => Err(e)
      case Ok(spec) => Ok(KeySpec(field[..i], spec))
  }

  /** The scanning loop of PyObiStruct: characters are appended to the last field, and a comma
      outside all braces starts a new one. */
  method ScanFields(body: string) returns (fields: seq<string>)
    ensures fields == SplitFields(body, 0)
  {
    hide Continue, SplitFields;
    fields := [""];
    var curlyCount := 0;
    ContinueEnds(fields, SplitFields(body, 0));
    assert body[0..] == body;
    for i := 0 to |body|
      invariant fields != []
      invariant SplitFields(body, 0) == Continue(fields, SplitFields(body[i..], curlyCount))
    {
      var c := body[i];
      ScanStep(fields, body[i..], curlyCount);
      assert body[i..][0] == c && body[i..][1..] == body[i + 1..];
      if c == ',' && curlyCount == 0 {
        fields := fields + [""];
      } else {
        fields := fields[..|fields| - 1] + [fields[|fields| - 1] + [c]];
        if c == '{' {
          curlyCount := curlyCount + 1;
        }
        if c == '}' {
          curlyCount := curlyCount - 1;
        }
      }
    }
    ContinueEnds(fields, [""]);
  }

  lemma ContinueEnds(fields: seq<string>, rest: seq<string>)
    requires fields != [] && rest != []
    ensures Continue([""], rest) == rest
    ensures Continue(fields, SplitFields([], 0)) == fields
    ensures forall depth :: SplitFields([], depth) == [""]
  {
    GlueNothing(rest);
    assert fields[|fields| - 1] + "" == fields[|fields| - 1];
  }

  /** The fields scanned so far, the last of them still open, followed by those of the rest. */
  function Continue(fields: seq<string>, rest: seq<string>): seq<string>
    requires fields != [] && rest != []
  {
    fields[..|fields| - 1] + Glue(fields[|fields| - 1], rest)
  }

  lemma ScanStep(fields: seq<string>, body: string, depth: int)
    requires fields != [] && body != []
    ensures Continue(fields, SplitFields(body, depth))
         == if body[0] == ',' && depth == 0 then Continue(fields + [""], SplitFields(body[1..], depth))
            else Continue(fields[..|fields| - 1] + [fields[|fields| - 1] + [body[0]]],
                          SplitFields(body[1..], Depth(depth, body[0])))
  {
    hide Continue, Glue;
    if body[0] == ',' && depth == 0 {
      ContinueAtComma(fields, SplitFields(body[1..], depth));
    } else {
      ContinueWithChar(fields, body[0], SplitFields(body[1..], Depth(depth, body[0])));
    }
  }

  lemma ContinueAtComma(fields: seq<string>, rest: seq<string>)
    requires fields != [] && rest != []
    ensures Continue(fields, [""] + rest) == Continue(fields + [""], rest)
  {
    hide Glue;
    var n := |fields| - 1;
    GlueNothing(rest);
    GlueEmptyField(fields[n], rest);
    assert fields[..n] + ([fields[n]] + rest) == (fields + [""])[..n + 1] + rest;
  }

  lemma ContinueWithChar(fields: seq<string>, c: char, rest: seq<string>)
    requires fields != [] && rest != []
    ensures Continue(fields, Glue([c], rest)) == Continue(fields[..|fields| - 1] + [fields[|fields| - 1] + [c]], rest)
  {
    hide Glue;
    var n := |fields| - 1;
    GlueTwice(fields[n], [c], rest);
    assert (fields[..n] + [fields[n] + [c]])[..n] == fields[..n];
  }

  lemma GlueEmptyField(last: string, rest: seq<string>)
    ensures Glue(last, [""] + rest) == [last] + rest
  {
    assert last + "" == last && ([""] + rest)[1..] == rest;
  }

  lemma GlueTwice(a: string, b: string, rest: seq<string>)
    requires rest != []
    ensures Glue(a, Glue(b, rest)) == Glue(a + b, rest)
  {
    assert a + (b + rest[0]) == a + b + rest[0];
    assert Glue(b, rest)[1..] == rest[1..];
  }

  lemma GlueNothing(fields: seq<string>)
    requires fields != []
    ensures Glue("", fields) == fields
  {
    assert "" + fields[0] == fields[0];
  }

  // ---------- printing a parsed schema ----------

  function BitsName(sizeInBytes: nat): string {
    if sizeInBytes == 1 then "8"
    else if sizeInBytes == 2 then "16"
    else if sizeInBytes == 4 then "32"
    else if sizeInBytes == 8 then "64"
    else if sizeInBytes == 16 then "128"
    else "256"
  }

  function Print(p: Spec): string
    decreases p, 0
  {
    match p
    case Integer(signed, size) => (if signed then "i" else "u") + BitsName(size)
    case Vector(intl) => "[" + Print(intl) + "]"
    case Struct(kvs) => "{" + PrintFields(kvs) + "}"
    case String => "string"
    case Bytes => "bytes"
  }

  function PrintFields(kvs: seq<KeySpec>): string
    decreases kvs, 1
  {
    if kvs == [] then ""
    else
      var first := kvs[0];
      assert first.spec < first;
      var text := first.key + ":" + Print(first.spec);
      if |kvs| == 1 then text else text + "," + PrintFields(kvs[1..])
  }

  /** A number in decimal digits. */
  function Decimal(n: nat): string {
    if n < 10 then [('0' as int + n) as char] else Decimal(n / 10) + [('0' as int + n % 10) as char]
  }

  lemma SizesInDecimal()
    ensures Decimal(8) == "8" && Decimal(16) == "16" && Decimal(32) == "32" && Decimal(64) == "64"
    ensures Decimal(128) == "128" && Decimal(256) == "256"
  {
    assert Decimal(1) == "1" && Decimal(2) == "2" && Decimal(3) == "3" && Decimal(6) == "6";
    assert Decimal(12) == "12" && Decimal(25) == "25";
  }

  /** The integer specs are the letter u or i and the number of bits in decimal, for 1, 2, 4, 8, 16 or 32 bytes. */
  lemma IntegerIsParsedIff(spec: string, signed: bool, size: nat)
    ensures ParseInteger(spec) == Some(Integer(signed, size))
       <==> size in {1, 2, 4, 8, 16, 32} && spec == [if signed then 'i' else 'u'] + Decimal(8 * size)
  {
    SizesInDecimal();
    hide Decimal;
    if spec != [] {
      assert spec == [spec[0]] + spec[1..];
    }
  }

  /** The specs the parser can produce from a printed text: known integer sizes, no empty struct,
      and keys without the characters the syntax is made of. */
  predicate Printable(p: Spec)
  {
    match p
    case Integer(_, size) => size in {1, 2, 4, 8, 16, 32}
    case Vector(intl) => Printable(intl)
    case Struct(kvs) => kvs != [] && forall kv :: kv in kvs ==> PlainKey(kv.key) && Printable(kv.spec)
    case _ => true
  }

  predicate PlainKey(key: string) {
    forall i :: 0 <= i < |key| ==> key[i] != ':' && key[i] != ',' && key[i] != '{' && key[i] != '}'
  }

  // ---------- parsing undoes printing ----------

  function EndDepth(s: string, depth: int): int {
    if s == [] then depth else EndDepth(s[1..], Depth(depth, s[0]))
  }

  /** Scanning s from this depth meets no comma outside all braces. */
  predicate Uncut(s: string, depth: int) {
    s == [] || (!(s[0] == ',' && depth == 0) && Uncut(s[1..], Depth(depth, s[0])))
  }

  lemma {:induction false} ScanAppend(a: string, b: string, depth: int)
    ensures EndDepth(a + b, depth) == EndDepth(b, EndDepth(a, depth))
    ensures Uncut(a + b, depth) <==> Uncut(a, depth) && Uncut(b, EndDepth(a, depth))
  {
    if a == [] {
      assert a + b == b;
    } else {
      assert (a + b)[1..] == a[1..] + b;
      ScanAppend(a[1..], b, Depth(depth, a[0]));
    }
  }

  lemma {:induction false} SplitUncut(a: string, b: string, depth: int)
    requires Uncut(a, depth)
    ensures SplitFields(a + b, depth) == Glue(a, SplitFields(b, EndDepth(a, depth)))
  {
    if a == [] {
      var fields := SplitFields(b, depth);
      assert a + b == b && [] + fields[0] == fields[0] && Glue([], fields) == fields;
    } else {
      assert (a + b)[1..] == a[1..] + b;
      SplitUncut(a[1..], b, Depth(depth, a[0]));
      var fields := SplitFields(b, EndDepth(a, depth));
      assert [a[0]] + (a[1..] + fields[0]) == a + fields[0];
    }
  }

  lemma {:induction false} PlainText(s: string, depth: int)
    requires forall i :: 0 <= i < |s| ==> s[i] != ',' && s[i] != '{' && s[i] != '}'
    ensures Uncut(s, depth) && EndDepth(s, depth) == depth
  {
    if s != [] {
      PlainText(s[1..], depth);
    }
  }

  /** A printed spec leaves the brace count where it was and has no comma outside braces of its own. */
  lemma {:induction false} PrintIsUncut(p: Spec, depth: nat)
    requires Printable(p)
    ensures Uncut(Print(p), depth) && EndDepth(Print(p), depth) == depth
    decreases p, 0
  {
    match p
    case Integer(_, _) => PlainText(Print(p), depth);
    case Vector(intl) =>
      hide Uncut, EndDepth;
      PrintIsUncut(intl, depth);
      PlainText("[", depth);
      PlainText("]", depth);
      ScanAppend("[", Print(intl), depth);
      ScanAppend("[" + Print(intl), "]", depth);
    case Struct(kvs) =>
      PrintFieldsStayInside(kvs, depth + 1);
      ScanAppend("{", PrintFields(kvs), depth);
      ScanAppend("{" + PrintFields(kvs), "}", depth);
    case String => PlainText("string", depth);
    case Bytes => PlainText("bytes", depth);
  }

  lemma {:induction false} PrintedFieldIsUncut(kv: KeySpec, depth: nat)
    requires PlainKey(kv.key) && Printable(kv.spec)
    ensures var text := kv.key + ":" + Print(kv.spec);
            Uncut(text, depth) && EndDepth(text, depth) == depth
    decreases kv, 2
  {
    assert kv.spec < kv;
    PlainText(kv.key, depth);
    PlainText(":", depth);
    PrintIsUncut(kv.spec, depth);
    ScanAppend(kv.key, ":", depth);
    ScanAppend(kv.key + ":", Print(kv.spec), depth);
  }

  lemma {:induction false} PrintFieldsStayInside(kvs: seq<KeySpec>, depth: nat)
    requires forall kv :: kv in kvs ==> PlainKey(kv.key) && Printable(kv.spec)
    requires depth > 0
    ensures Uncut(PrintFields(kvs), depth) && EndDepth(PrintFields(kvs), depth) == depth
    decreases kvs, 1
  {
    if kvs != [] {
      var text := kvs[0].key + ":" + Print(kvs[0].spec);
      PrintedFieldIsUncut(kvs[0], depth);
      if |kvs| > 1 {
        PrintFieldsStayInside(kvs[1..], depth);
        ScanAppend(text, ",", depth);
        ScanAppend(text + ",", PrintFields(kvs[1..]), depth);
      }
    }
  }

  function FieldTexts(kvs: seq<KeySpec>): seq<string> {
    seq(|kvs|, i requires 0 <= i < |kvs| => kvs[i].key + ":" + Print(kvs[i].spec))
  }

  lemma {:induction false} SplitPrintedFields(kvs: seq<KeySpec>)
    requires kvs != [] && forall kv :: kv in kvs ==> PlainKey(kv.key) && Printable(kv.spec)
    ensures SplitFields(PrintFields(kvs), 0) == FieldTexts(kvs)
    decreases |kvs|
  {
    var text := kvs[0].key + ":" + Print(kvs[0].spec);
    PrintedFieldIsUncut(kvs[0], 0);
    if |kvs| == 1 {
      assert text + "" == text;
      SplitUncut(text, "", 0);
    } else {
      var rest := PrintFields(kvs[1..]);
      assert text + "," + rest == text + ("," + rest);
      SplitUncut(text, "," + rest, 0);
      assert ("," + rest)[1..] == rest;
      SplitPrintedFields(kvs[1..]);
      assert text + "" == text && ([""] + FieldTexts(kvs[1..]))[1..] == FieldTexts(kvs[1..]);
      assert Glue(text, [""] + FieldTexts(kvs[1..])) == [text] + FieldTexts(kvs[1..]);
      assert FieldTexts(kvs) == [text] + FieldTexts(kvs[1..]);
    }
  }

  lemma {:induction false} FirstColonOfField(key: string, rest: string)
    requires ':' !in key
    ensures FirstColon(key + ":" + rest) == Some(|key|)
  {
    var field := key + ":" + rest;
    if key != [] {
      assert field[0] == key[0] && field[1..] == key[1..] + ":" + rest;
      FirstColonOfField(key[1..], rest);
    }
  }

  lemma NotAnInteger(spec: string)
    requires spec != [] && spec[0] != 'u' && spec[0] != 'i'
    ensures ParseInteger(spec).None?
  {}

  /** The parser rebuilds every printable spec from its text. */
  lemma {:induction false} ParsingUndoesPrinting(p: Spec)
    requires Printable(p)
    ensures FromSpec(Print(p)) == Ok(p)
    decreases p, 0
  {
    hide SplitFields, PrintFields, FieldTexts;
    var text := Print(p);
    match p
    case Integer(signed, size) => assert text[1..] == BitsName(size);
    case Vector(intl) =>
      hide ParseInteger;
      NotAnInteger(text);
      assert text[0] == '[' && text[1..|text| - 1] == Print(intl);
      ParsingUndoesPrinting(intl);
    case Struct(kvs) =>
      hide ParseInteger;
      NotAnInteger(text);
      assert text[0] == '{' && text[1..|text| - 1] == PrintFields(kvs);
      SplitPrintedFields(kvs);
      SplitFieldsAreShort(PrintFields(kvs), 0);
      ParsingUndoesFieldPrinting(kvs, |text|);
    case String =>
    case Bytes =>
  }

  lemma {:induction false} ParsingUndoesFieldPrinting(kvs: seq<KeySpec>, bound: nat)
    requires forall kv :: kv in kvs ==> PlainKey(kv.key) && Printable(kv.spec)
    requires forall f :: f in FieldTexts(kvs) ==> |f| < bound
    ensures ParseFields(FieldTexts(kvs), bound) == Ok(kvs)
    decreases kvs, 1
  {
    if kvs != [] {
      var first := kvs[0];
      assert first.spec < first;
      var text := first.key + ":" + Print(first.spec);
      assert FieldTexts(kvs)[0] == text && FieldTexts(kvs)[1..] == FieldTexts(kvs[1..]);
      FirstColonOfField(first.key, Print(first.spec));
      assert text[..|first.key|] == first.key && text[|first.key| + 1..] == Print(first.spec);
      ParsingUndoesPrinting(first.spec);
      ParsingUndoesFieldPrinting(kvs[1..], bound);
      assert [first] + kvs[1..] == kvs;
    }
  }

  // ---------- printing undoes parsing ----------

  function Join(fields: seq<string>): string {
    if fields == [] then "" else if |fields| == 1 then fields[0] else fields[0] + "," + Join(fields[1..])
  }

  lemma GlueThenJoin(front: string, fields: seq<string>)
    requires fields != []
    ensures Join(Glue(front, fields)) == front + Join(fields)
  {
    var glued := Glue(front, fields);
    assert glued[1..] == fields[1..];
    if |fields| > 1 {
      assert front + fields[0] + "," + Join(fields[1..]) == front + (fields[0] + "," + Join(fields[1..]));
    }
  }

  /** Cutting loses nothing, wherever the cuts fall. */
  lemma {:induction false} JoinUndoesSplit(body: string, depth: int)
    ensures Join(SplitFields(body, depth)) == body
  {
    if body != [] {
      assert body == [body[0]] + body[1..];
      if body[0] == ',' && depth == 0 {
        JoinUndoesSplit(body[1..], depth);
        var fields := SplitFields(body[1..], depth);
        assert ([""] + fields)[1..] == fields;
      } else {
        JoinUndoesSplit(body[1..], Depth(depth, body[0]));
        GlueThenJoin([body[0]], SplitFields(body[1..], Depth(depth, body[0])));
      }
    }
  }

  lemma ParsedIntegerPrints(spec: string)
    requires ParseInteger(spec).Some?
    ensures Print(ParseInteger(spec).value) == spec
  {
    assert spec == [spec[0]] + spec[1..];
  }

  /** Whatever text the parser accepts is the printed form of the spec it returns. */
  lemma {:induction false} PrintingUndoesParsing(spec: string)
    requires FromSpec(spec).Ok?
    ensures Print(FromSpec(spec).value) == spec
    decreases |spec|, 1, 0
  {
    hide ParseInteger, SplitFields, Join;
    if ParseInteger(spec).Some? {
      ParsedIntegerPrints(spec);
    } else if Enclosed(spec, '[', ']') {
      PrintingUndoesParsing(spec[1..|spec| - 1]);
      OpenBodyClose(spec);
    } else if Enclosed(spec, '{', '}') {
      var body := spec[1..|spec| - 1];
      SplitFieldsAreShort(body, 0);
      PrintingUndoesFieldParsing(SplitFields(body, 0), |spec|);
      JoinUndoesSplit(body, 0);
      OpenBodyClose(spec);
    }
  }

  lemma OpenBodyClose(spec: string)
    requires |spec| >= 2
    ensures spec == [spec[0]] + spec[1..|spec| - 1] + [spec[|spec| - 1]]
  {}

  lemma {:induction false} PrintingUndoesFieldParsing(fields: seq<string>, bound: nat)
    requires forall f :: f in fields ==> |f| < bound
    requires ParseFields(fields, bound).Ok?
    ensures |ParseFields(fields, bound).value| == |fields|
    ensures PrintFields(ParseFields(fields, bound).value) == Join(fields)
    decreases bound, 0, |fields|
  {
    if fields != [] {
      PrintingUndoesParsingOfField(fields[0], bound);
      PrintingUndoesFieldParsing(fields[1..], bound);
      var kvs := ParseFields(fields, bound).value;
      assert kvs[1..] == ParseFields(fields[1..], bound).value;
    }
  }

  lemma {:induction false} PrintingUndoesParsingOfField(field: string, bound: nat)
    requires |field| < bound && ParseField(field, bound).Ok?
    ensures var kv := ParseField(field, bound).value; kv.key + ":" + Print(kv.spec) == field
    decreases |field|, 2, 0
  {
    hide FirstColon, Print, FromSpec;
    FirstColonFinds(field);
    var i := FirstColon(field).value;
    PrintingUndoesParsing(field[i + 1..]);
    AroundColon(field, i);
  }

  lemma AroundColon(field: string, i: nat)
    requires i < |field| && field[i] == ':'
    ensures field == field[..i] + ":" + field[i + 1..]
  {
  }

  // ---------- the whole schema: input and output ----------

  /** What `\s` matches. */
  predicate IsSpace(c: char) {
    var x := c as int;
    || 0x09 <= x <= 0x0D || 0x1C <= x <= 0x20 || x == 0x85 || x == 0xA0 || x == 0x1680
    || 0x2000 <= x <= 0x200A || x == 0x2028 || x == 0x2029 || x == 0x202F || x == 0x205F || x == 0x3000
  }

  function RemoveSpaces(schema: string): string {
    if schema == [] then []
    else if IsSpace(schema[0]) then RemoveSpaces(schema[1..])
    else [schema[0]] + RemoveSpaces(schema[1..])
  }

  /** Python's `split("/")`. */
  function SplitSlashes(s: string): (tokens: seq<string>)
    ensures tokens != []
  {
    if s == [] then [""]
    else if s[0] == '/' then [""] + SplitSlashes(s[1..])
    else Glue([s[0]], SplitSlashes(s[1..]))
  }

  /** PyObi.__init__. */
  function ParseSchema(schema: string): Result<(Spec, Spec), Error> {
    var tokens := SplitSlashes(RemoveSpaces(schema));
    if |tokens| != 2 then Err(NotOneSlash)
    else
      match FromSpec(tokens[0])
      case Err(e) => Err(e)
      case Ok(input) =>
        match FromSpec(tokens[1])
        case Err(e) => Err(e)
        case Ok(output) => Ok((input, output))
  }

  /** Neither white space nor a slash. */
  predicate Clear(s: string) {
    forall i :: 0 <= i < |s| ==> s[i] != '/' && !IsSpace(s[i])
  }

  predicate ClearKeys(p: Spec) {
    match p
    case Vector(intl) => ClearKeys(intl)
    case Struct(kvs) => forall kv :: kv in kvs ==> Clear(kv.key) && ClearKeys(kv.spec)
    case _ => true
  }

  lemma {:induction false} PrintIsClear(p: Spec)
    requires ClearKeys(p)
    ensures Clear(Print(p))
    decreases p, 0
  {
    match p
    case Vector(intl) => PrintIsClear(intl);
    case Struct(kvs) => PrintFieldsAreClear(kvs);
    case _ =>
  }

  lemma {:induction false} PrintFieldsAreClear(kvs: seq<KeySpec>)
    requires forall kv :: kv in kvs ==> Clear(kv.key) && ClearKeys(kv.spec)
    ensures Clear(PrintFields(kvs))
    decreases kvs, 1
  {
    if kvs != [] {
      var first := kvs[0];
      assert first.spec < first && first in kvs;
      PrintIsClear(first.spec);
      PrintFieldsAreClear(kvs[1..]);
    }
  }

  lemma {:induction false} SplitNoSlash(b: string)
    requires Clear(b)
    ensures SplitSlashes(b) == [b]
  {
    if b != [] {
      SplitNoSlash(b[1..]);
      assert [b[0]] + b[1..] == b;
    }
  }

  lemma {:induction false} SplitOneSlash(a: string, b: string)
    requires Clear(a) && Clear(b)
    ensures SplitSlashes(a + "/" + b) == [a, b]
  {
    hide Clear, IsSpace;
    var whole := a + "/" + b;
    SplitNoSlash(b);
    if a == [] {
      assert whole[1..] == b;
    } else {
      assert Clear(a[1..]) && a[0] != '/' by { FirstIsClear(a); }
      SplitOneSlash(a[1..], b);
      assert whole[1..] == a[1..] + "/" + b;
      assert [a[0]] + a[1..] == a;
    }
  }

  lemma FirstIsClear(a: string)
    requires Clear(a) && a != []
    ensures Clear(a[1..]) && a[0] != '/'
  {
  }

  lemma {:induction false} NoSpacesToRemove(s: string)
    requires forall i :: 0 <= i < |s| ==> !IsSpace(s[i])
    ensures RemoveSpaces(s) == s
  {
    if s != [] {
      NoSpacesToRemove(s[1..]);
      assert [s[0]] + s[1..] == s;
    }
  }

  /** A schema of two printed specs is read back, however it is laid out with white space. */
  lemma SchemaParsesBack(schema: string, input: Spec, output: Spec)
    requires Printable(input) && Printable(output) && ClearKeys(input) && ClearKeys(output)
    requires RemoveSpaces(schema) == Print(input) + "/" + Print(output)
    ensures ParseSchema(schema) == Ok((input, output))
    ensures RemoveSpaces(Print(input) + "/" + Print(output)) == Print(input) + "/" + Print(output)
  {
    PrintIsClear(input);
    PrintIsClear(output);
    SplitOneSlash(Print(input), Print(output));
    ParsingUndoesPrinting(input);
    ParsingUndoesPrinting(output);
    NoSpacesToRemove(Print(input) + "/" + Print(output));
  }
}
