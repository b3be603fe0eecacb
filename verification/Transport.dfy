// Payloads of the transports: DoH GET parameters (RFC 8484) and framed streams
// (TCP, and TLS over it), and what a message sent through them arrives as.

module Transport {
  import opened Types
  import opened Message
  import B = Base64Url
  import opened TcpFrame

  datatype DohError = InvalidBase64Url | EmptyBody

  datatype DohResult = Payload(data: bytes) | Refused(error: DohError)

  method DohEncodeGet(dnsMessage: bytes) returns (encoded: bytes)
    ensures DohDecoded(encoded) == Payload(dnsMessage)
    ensures 3 * |encoded| <= 4 * |dnsMessage| + 2
    ensures forall i | 0 <= i < |encoded| :: B.UrlSafe(encoded[i])
  {
    encoded := B.Encode(dnsMessage);
    B.DecodeEncode(dnsMessage);
    B.EncodedLength(dnsMessage);
    B.EncodedIsUrlSafe(dnsMessage);
  }

  function DohDecoded(encoded: bytes): DohResult {
    match B.DecodeSpec(encoded)
    case Bytes(data) => Payload(data)
    case Failed(_) => Refused(InvalidBase64Url)
  }

  method DohDecodeGet(encoded: bytes) returns (r: DohResult)
    ensures r == DohDecoded(encoded)
    ensures r.Refused? <==> exists k :: 0 <= k < |encoded| && !B.Valid(encoded[k])
    ensures forall m :: encoded == B.EncodeSpec(m) ==> r == Payload(m)
    ensures r.Payload? ==> (B.EncodeSpec(r.data) == encoded <==> B.Canonical(encoded))
  {
    hide B.DecodeSpec, B.EncodeSpec, B.Valid, B.Canonical;
    B.DecodeAcceptsIff(encoded);
    B.EncodeDecodeIff(encoded);
    forall m | encoded == B.EncodeSpec(m) ensures B.DecodeSpec(encoded) == B.Bytes(m) {
      B.DecodeEncode(m);
    }
    var d := B.Decode(encoded);
    match d
    case Bytes(data) => r := Payload(data);
    case Failed(_) => r := Refused(InvalidBase64Url);
  }

  // A POST body, or the content of a QUIC stream, is the message itself.
  method DecodeBody(body: bytes) returns (r: DohResult)
    ensures r == if body == [] then Refused(EmptyBody) else Payload(body)
  {
    if |body| == 0 {
      return Refused(EmptyBody);
    }
    return Payload(body);
  }

  function Arrives(r: DohResult): Option<Message> {
    match r
    case Refused(_) => None
    case Payload(data) => (match Decode(data) case Err(_) => None case Ok(m) => Some(m))
  }

  // A message put in a GET parameter arrives as itself exactly when it is well formed.
  lemma GetCarriesMessageIff(m: Message)
    ensures Arrives(DohDecoded(B.EncodeSpec(MessageBytes(m)))) == Some(m) <==> WfMessage(m)
  {
    hide Decode, MessageBytes, WfMessage, B.DecodeSpec, B.EncodeSpec;
    B.DecodeEncode(MessageBytes(m));
    MessageRoundTripIff(m);
  }

  function Encodings(ms: seq<Message>): (r: seq<bytes>)
    ensures |r| == |ms|
    ensures forall i | 0 <= i < |ms| :: r[i] == MessageBytes(ms[i])
  {
    seq(|ms|, i requires 0 <= i < |ms| => MessageBytes(ms[i]))
  }

  // Messages framed one after the other, however the stream is cut, are served
  // as their encodings and decode to themselves, as long as each is well formed
  // and fits the frame limit.
  lemma StreamCarriesMessages(ms: seq<Message>, chunks: seq<bytes>, limit: u16)
    requires forall i | 0 <= i < |ms| :: WfMessage(ms[i]) && |MessageBytes(ms[i])| <= limit as int
    requires Concat(chunks) == Frames(Encodings(ms))
    ensures var (served, left) := ServeSpec([], chunks, limit);
            left == [] && |served| == |ms| && forall i | 0 <= i < |ms| :: Decode(served[i]) == Ok(ms[i])
  {
    hide Decode, MessageBytes, WfMessage, ServeSpec, Frames, Concat;
    FramesArrive(Encodings(ms), chunks, limit);
    forall i | 0 <= i < |ms| ensures Decode(Encodings(ms)[i]) == Ok(ms[i]) {
      MessageRoundTripIff(ms[i]);
    }
  }
}
