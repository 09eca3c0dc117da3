/** The hash a result is stored under, and what it commits to. */
module ResultCommitment {
  import opened MachineTypes
  import opened OracleTypes
  import G = Obi
  import R = ObiRoundTrip

  /** A 32-byte hash function about which nothing else is known. */
  type Hash = bytes -> bytes

  ghost predicate Is32Bytes(h: Hash) {
    forall x :: |h(x)| == 32
  }

  function Untagged(t: G.GoType): G.Field {
    G.Field(None, t)
  }

  /** The Go struct types of the two packets. */
  const REQUEST_PACKET := G.Struct([
    Untagged(G.Str), Untagged(G.Int(G.W64)), Untagged(G.BYTE_SLICE), Untagged(G.Uint(G.W64)), Untagged(G.Uint(G.W64))])

  const RESPONSE_PACKET := G.Struct([
    Untagged(G.Str), Untagged(G.Int(G.W64)), Untagged(G.Uint(G.W64)), Untagged(G.Int(G.W64)),
    Untagged(G.Int(G.W64)), Untagged(G.Int(G.W32)), Untagged(G.BYTE_SLICE)])

  function StatusNumber(status: ResolveStatus): int {
    match status
    case Open => 0
    case Success => 1
    case Failure => 2
    case Expired => 3
  }

  function RequestValue(p: RequestPacket): G.Value {
    G.Record([G.Text(p.clientID), G.Number(p.oracleScriptID), G.Text(p.calldata),
              G.Number(p.askCount), G.Number(p.minCount)])
  }

  function ResponseValue(p: ResponsePacket): G.Value {
    G.Record([G.Text(p.clientID), G.Number(p.requestID), G.Number(p.ansCount), G.Number(p.requestTime),
              G.Number(p.resolveTime), G.Number(StatusNumber(p.resolveStatus)), G.Text(p.result)])
  }

  /** Lengths below 2^32 and, for the unbounded identifier of the model, the range of an int64. */
  predicate PacketsFit(req: RequestPacket, res: ResponsePacket) {
    && |req.clientID| < TWO_TO_32 && |req.calldata| < TWO_TO_32
    && |res.clientID| < TWO_TO_32 && |res.result| < TWO_TO_32
    && -TWO_TO_63 <= res.requestID < TWO_TO_63
  }

  lemma RequestHasType(req: RequestPacket)
    ensures G.HasType(RequestValue(req), REQUEST_PACKET) && G.Encoding(RequestValue(req), REQUEST_PACKET).Ok?
  {
    assert R.Supported(REQUEST_PACKET);
    R.SupportedTypesEncode(RequestValue(req), REQUEST_PACKET);
  }

  lemma ResponseHasType(res: ResponsePacket)
    requires -TWO_TO_63 <= res.requestID < TWO_TO_63
    ensures G.HasType(ResponseValue(res), RESPONSE_PACKET) && G.Encoding(ResponseValue(res), RESPONSE_PACKET).Ok?
  {
    assert R.Supported(RESPONSE_PACKET);
    R.SupportedTypesEncode(ResponseValue(res), RESPONSE_PACKET);
  }

  function EncodeRequest(req: RequestPacket): bytes {
    RequestHasType(req);
    G.Encoding(RequestValue(req), REQUEST_PACKET).value
  }

  function EncodeResponse(res: ResponsePacket): bytes
    requires -TWO_TO_63 <= res.requestID < TWO_TO_63
  {
    ResponseHasType(res);
    G.Encoding(ResponseValue(res), RESPONSE_PACKET).value
  }

  function CalculateResultHash(h: Hash, req: RequestPacket, res: ResponsePacket): bytes
    requires -TWO_TO_63 <= res.requestID < TWO_TO_63
  {
    h(h(EncodeRequest(req)) + h(EncodeResponse(res)))
  }

  /** One field, and the rest behind it. */
  lemma FieldInFront(values: seq<G.Value>, fields: seq<G.Field>, rest: bytes)
    requires |values| == |fields| > 0 && forall i :: 0 <= i < |fields| ==> G.HasType(values[i], fields[i].goType)
    requires G.FieldsEncoding(values[1..], fields[1..]) == Ok(rest)
    requires G.Encoding(values[0], fields[0].goType).Ok?
    ensures G.FieldsEncoding(values, fields) == Ok(G.Encoding(values[0], fields[0].goType).value + rest)
  {
    hide G.Encoding, G.HasType;
  }

  /** The bytes of a request packet: its five fields in the order of the struct. */
  lemma RequestBytes(p: RequestPacket)
    ensures EncodeRequest(p)
         == G.EncodeBytes(p.clientID)
          + (G.BigEndian(ToUint64(p.oracleScriptID), 8)
          + (G.EncodeBytes(p.calldata)
          + (G.BigEndian(p.askCount, 8)
          + G.BigEndian(p.minCount, 8))))
  {
    RequestHasType(p);
    hide G.BigEndian, G.EncodeBytes;
    var values, fields := RequestValue(p).values, REQUEST_PACKET.fields;
    var min, ask, oid := G.BigEndian(p.minCount, 8), G.BigEndian(p.askCount, 8), G.BigEndian(ToUint64(p.oracleScriptID), 8);
    assert min + [] == min;
    assert values[4..][1..] == [] && values[3..][1..] == values[4..] && values[2..][1..] == values[3..];
    assert fields[4..][1..] == [] && fields[3..][1..] == fields[4..] && fields[2..][1..] == fields[3..];
    assert values[1..][1..] == values[2..] && fields[1..][1..] == fields[2..];
    FieldInFront(values[4..], fields[4..], []);
    FieldInFront(values[3..], fields[3..], min);
    FieldInFront(values[2..], fields[2..], ask + min);
    FieldInFront(values[1..], fields[1..], G.EncodeBytes(p.calldata) + (ask + min));
    FieldInFront(values, fields, oid + (G.EncodeBytes(p.calldata) + (ask + min)));
  }

  /** The bytes of a response packet: its seven fields in the order of the struct, the status in four
      bytes. */
  lemma ResponseBytes(p: ResponsePacket)
    requires -TWO_TO_63 <= p.requestID < TWO_TO_63
    ensures EncodeResponse(p)
         == G.EncodeBytes(p.clientID)
          + (G.BigEndian(ToUint64(p.requestID), 8)
          + (G.BigEndian(p.ansCount, 8)
          + (G.BigEndian(ToUint64(p.requestTime), 8)
          + (G.BigEndian(ToUint64(p.resolveTime), 8)
          + (G.BigEndian(match p.resolveStatus case Open => 0 case Success => 1 case Failure => 2 case Expired => 3, 4)
          + G.EncodeBytes(p.result))))))
  {
    ResponseHasType(p);
    ResponseTail(p);
    hide G.BigEndian, G.EncodeBytes, G.FieldsEncoding;
    var values, fields := ResponseValue(p).values, RESPONSE_PACKET.fields;
    var tail := G.BigEndian(ToUint64(p.resolveTime), 8)
              + (G.BigEndian(StatusNumber(p.resolveStatus), 4) + G.EncodeBytes(p.result));
    var requested := G.BigEndian(ToUint64(p.requestTime), 8);
    var ans, id := G.BigEndian(p.ansCount, 8), G.BigEndian(ToUint64(p.requestID), 8);
    assert values[3..][1..] == values[4..] && values[2..][1..] == values[3..] && values[1..][1..] == values[2..];
    assert fields[3..][1..] == fields[4..] && fields[2..][1..] == fields[3..] && fields[1..][1..] == fields[2..];
    FieldInFront(values[3..], fields[3..], tail);
    FieldInFront(values[2..], fields[2..], requested + tail);
    FieldInFront(values[1..], fields[1..], ans + (requested + tail));
    FieldInFront(values, fields, id + (ans + (requested + tail)));
    assert G.Encoding(ResponseValue(p), RESPONSE_PACKET) == G.FieldsEncoding(values, fields);
  }

  lemma ResponseTail(p: ResponsePacket)
    ensures (forall i :: 4 <= i < 7 ==> G.HasType(ResponseValue(p).values[i], RESPONSE_PACKET.fields[i].goType))
         && G.FieldsEncoding(ResponseValue(p).values[4..], RESPONSE_PACKET.fields[4..])
            == Ok(G.BigEndian(ToUint64(p.resolveTime), 8)
                  + (G.BigEndian(StatusNumber(p.resolveStatus), 4) + G.EncodeBytes(p.result)))
  {
    hide G.BigEndian, G.EncodeBytes;
    var values, fields := ResponseValue(p).values, RESPONSE_PACKET.fields;
    var res, status := G.EncodeBytes(p.result), G.BigEndian(StatusNumber(p.resolveStatus), 4);
    assert res + [] == res;
    assert values[6..][1..] == [] && values[5..][1..] == values[6..] && values[4..][1..] == values[5..];
    assert fields[6..][1..] == [] && fields[5..][1..] == fields[6..] && fields[4..][1..] == fields[5..];
    FieldInFront(values[6..], fields[6..], []);
    FieldInFront(values[5..], fields[5..], res);
    FieldInFront(values[4..], fields[4..], status + res);
  }

  lemma RequestEncodingIsInjective(p: RequestPacket, q: RequestPacket)
    requires |p.clientID| < TWO_TO_32 && |p.calldata| < TWO_TO_32
    requires |q.clientID| < TWO_TO_32 && |q.calldata| < TWO_TO_32
    requires EncodeRequest(p) == EncodeRequest(q)
    ensures p == q
  {
    RequestHasType(p);
    RequestHasType(q);
    var v, w := RequestValue(p), RequestValue(q);
    R.EncodingsAreSelfDelimiting(REQUEST_PACKET, v, [], w, []);
    assert v.values == w.values;
    assert v.values[0] == w.values[0] && v.values[1] == w.values[1] && v.values[2] == w.values[2];
    assert v.values[3] == w.values[3] && v.values[4] == w.values[4];
  }

  lemma ResponseEncodingIsInjective(p: ResponsePacket, q: ResponsePacket)
    requires |p.clientID| < TWO_TO_32 && |p.result| < TWO_TO_32 && -TWO_TO_63 <= p.requestID < TWO_TO_63
    requires |q.clientID| < TWO_TO_32 && |q.result| < TWO_TO_32 && -TWO_TO_63 <= q.requestID < TWO_TO_63
    requires EncodeResponse(p) == EncodeResponse(q)
    ensures p == q
  {
    ResponseHasType(p);
    ResponseHasType(q);
    R.EncodingsAreSelfDelimiting(RESPONSE_PACKET, ResponseValue(p), [], ResponseValue(q), []);
    hide *;
    SameResponse(p, q);
  }

  lemma SameResponse(p: ResponsePacket, q: ResponsePacket)
    requires ResponseValue(p) == ResponseValue(q)
    ensures p == q
  {
    var v, w := ResponseValue(p).values, ResponseValue(q).values;
    assert v[0] == w[0] && v[1] == w[1] && v[2] == w[2] && v[3] == w[3] && v[4] == w[4] && v[5] == w[5] && v[6] == w[6];
  }

  /** The result hash binds: two different pairs of packets with the same hash hand over two
      different inputs with the same 32-byte hash, among six inputs that are written down here. */
  lemma ResultHashBinds(h: Hash, req: RequestPacket, res: ResponsePacket, req': RequestPacket, res': ResponsePacket)
      returns (x: bytes, y: bytes)
    requires Is32Bytes(h) && PacketsFit(req, res) && PacketsFit(req', res')
    requires (req, res) != (req', res')
    requires CalculateResultHash(h, req, res) == CalculateResultHash(h, req', res')
    ensures x != y && h(x) == h(y)
    ensures (x, y) in {(EncodeRequest(req), EncodeRequest(req')),
                       (EncodeResponse(res), EncodeResponse(res')),
                       (h(EncodeRequest(req)) + h(EncodeResponse(res)), h(EncodeRequest(req')) + h(EncodeResponse(res')))}
  {
    var a, b, a', b' := EncodeRequest(req), EncodeResponse(res), EncodeRequest(req'), EncodeResponse(res');
    if h(a) + h(b) != h(a') + h(b') {
      x, y := h(a) + h(b), h(a') + h(b');
    } else {
      SameLengthSplit(h(a), h(b), h(a'), h(b'));
      if req != req' {
        if a == a' {
          RequestEncodingIsInjective(req, req');
        }
        x, y := a, a';
      } else {
        if b == b' {
          ResponseEncodingIsInjective(res, res');
        }
        x, y := b, b';
      }
    }
  }
}
