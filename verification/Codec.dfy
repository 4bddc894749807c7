/** PDU bodies, the 16-octet header, and reading PDUs back off a byte stream. */
module Codec {
  import opened GoStrings
  import opened Results
  import opened Fields
  import opened ShortMessages

  // ---------------------------------------------------------------- bodies

  datatype BindFields = BindFields(
    systemID: GoString, password: GoString, systemType: GoString,
    interfaceVersion: byte, addrTON: byte, addrNPI: byte, addressRange: GoString)

  datatype Body =
    | BindRequest(bind: BindFields)
    | BindResponse(systemID: GoString)
    | SubmitSM(sm: ShortMessageBody)
    | SubmitSMResp(messageID: GoString)
    | DeliverSM(sm: ShortMessageBody)
    | DeliverSMResp(messageID: GoString)
    | EnquireLink | EnquireLinkResp | Unbind | UnbindResp | GenericNack

  const BIND_LENGTH: nat := 82

  function MarshalBind(b: BindFields): (bytes: seq<byte>)
    ensures |bytes| == BIND_LENGTH
  {
    Pad(b.systemID, 16) + Pad(b.password, 9) + Pad(b.systemType, 13)
    + [b.interfaceVersion, b.addrTON, b.addrNPI] + Pad(b.addressRange, 41)
  }

  function UnmarshalBind(data: seq<byte>): Result<BindFields> {
    if |data| < BIND_LENGTH then Err(InsufficientData)
    else Ok(BindFields(
      TrimRight(data[0..16]), TrimRight(data[16..25]), TrimRight(data[25..38]),
      data[38], data[39], data[40], TrimRight(data[41..82])))
  }

  /** The command ID a body is emitted with: for binds always the transceiver's. */
  function CommandID(body: Body): uint32 {
    match body
    case BindRequest(_) => 0x0000_0009
    case BindResponse(_) => 0x8000_0009
    case SubmitSM(_) => 0x0000_0004
    case SubmitSMResp(_) => 0x8000_0004
    case DeliverSM(_) => 0x0000_0005
    case DeliverSMResp(_) => 0x8000_0005
    case EnquireLink => 0x0000_0015
    case EnquireLinkResp => 0x8000_0015
    case Unbind => 0x0000_0006
    case UnbindResp => 0x8000_0006
    case GenericNack => 0x8000_0000
  }

  function MarshalBody(body: Body): seq<byte> {
    match body
    case BindRequest(b) => MarshalBind(b)
    case BindResponse(id) => id + [0]
    case SubmitSM(s) => Marshalled(s)
    case SubmitSMResp(id) => id + [0]
    case DeliverSM(s) => Marshalled(s)
    case DeliverSMResp(id) => id + [0]
    case _ => []
  }

  const EMPTY_BIND: BindFields := BindFields([], [], [], 0, 0, 0, [])

  /** The zero body of a command ID. */
  function CreatePDUBody(commandID: uint32): Result<Body> {
    if commandID == 1 || commandID == 2 || commandID == 9 then Ok(BindRequest(EMPTY_BIND))
    else if commandID == 0x8000_0001 || commandID == 0x8000_0002 || commandID == 0x8000_0009 then Ok(BindResponse([]))
    else if commandID == 4 then Ok(SubmitSM(NOTHING))
    else if commandID == 0x8000_0004 then Ok(SubmitSMResp([]))
    else if commandID == 5 then Ok(DeliverSM(NOTHING))
    else if commandID == 0x8000_0005 then Ok(DeliverSMResp([]))
    else if commandID == 0x15 then Ok(EnquireLink)
    else if commandID == 0x8000_0015 then Ok(EnquireLinkResp)
    else if commandID == 6 then Ok(Unbind)
    else if commandID == 0x8000_0006 then Ok(UnbindResp)
    else Err(UnsupportedCommand)
  }

  /** `Unmarshal` of a body of the same kind as zero. */
  function UnmarshalBody(zero: Body, data: seq<byte>): Result<Body> {
    match zero
    case BindRequest(_) => var b :- UnmarshalBind(data); Ok(BindRequest(b))
    case BindResponse(_) => if data == [] then Err(InsufficientData) else Ok(BindResponse(UntilNul(data)))
    case SubmitSM(_) => var s :- Unmarshalled(data); Ok(SubmitSM(s))
    case SubmitSMResp(_) => if data == [] then Err(InsufficientData) else Ok(SubmitSMResp(UntilNul(data)))
    case DeliverSM(_) => var s :- Unmarshalled(data); Ok(DeliverSM(s))
    case DeliverSMResp(_) => if data == [] then Err(InsufficientData) else Ok(DeliverSMResp(UntilNul(data)))
    case _ => Ok(zero)
  }

  function DecodeBody(commandID: uint32, data: seq<byte>): Result<Body> {
    var zero :- CreatePDUBody(commandID);
    if data == [] then Ok(zero) else UnmarshalBody(zero, data)
  }

  predicate FitsBind(b: BindFields) {
    FitsField(b.systemID, 16) && FitsField(b.password, 9) && FitsField(b.systemType, 13) && FitsField(b.addressRange, 41)
  }

  /** The bodies that survive the wire. */
  predicate FitsWire(body: Body) {
    match body
    case BindRequest(b) => FitsBind(b)
    case BindResponse(id) => 0 !in id
    case SubmitSM(s) => FitsBody(s) && HasContent(s)
    case SubmitSMResp(id) => 0 !in id
    case DeliverSM(s) => FitsBody(s) && HasContent(s)
    case DeliverSMResp(id) => 0 !in id
    case GenericNack => false
    case _ => true
  }

  lemma BindRoundTrip(b: BindFields)
    ensures UnmarshalBind(MarshalBind(b)) == Ok(b) <==> FitsBind(b)
  {
    var d := MarshalBind(b);
    assert d[0..16] == Pad(b.systemID, 16) && d[16..25] == Pad(b.password, 9);
    assert d[25..38] == Pad(b.systemType, 13) && d[41..82] == Pad(b.addressRange, 41);
    assert d[38] == b.interfaceVersion && d[39] == b.addrTON && d[40] == b.addrNPI;
    TrimPad(b.systemID, 16);
    TrimPad(b.password, 9);
    TrimPad(b.systemType, 13);
    TrimPad(b.addressRange, 41);
  }

  lemma MarshalledNotEmpty(s: ShortMessageBody)
    ensures |Marshalled(s)| >= FIXED_LENGTH
  {
  }

  lemma SubmitRoundTrip(s: ShortMessageBody)
    ensures DecodeBody(4, Marshalled(s)) == Ok(SubmitSM(s)) <==> FitsBody(s) && HasContent(s)
  {
    MarshalledNotEmpty(s);
    BodyRoundTrip(s);
  }

  lemma DeliverRoundTrip(s: ShortMessageBody)
    ensures DecodeBody(5, Marshalled(s)) == Ok(DeliverSM(s)) <==> FitsBody(s) && HasContent(s)
  {
    MarshalledNotEmpty(s);
    BodyRoundTrip(s);
  }

  lemma IdRoundTrip(id: GoString)
    ensures DecodeBody(0x8000_0009, id + [0]) == Ok(BindResponse(id)) <==> 0 !in id
    ensures DecodeBody(0x8000_0004, id + [0]) == Ok(SubmitSMResp(id)) <==> 0 !in id
    ensures DecodeBody(0x8000_0005, id + [0]) == Ok(DeliverSMResp(id)) <==> 0 !in id
  {
    UntilNulTerminated(id);
  }

  lemma BindRequestRoundTrip(b: BindFields)
    ensures DecodeBody(9, MarshalBind(b)) == Ok(BindRequest(b)) <==> FitsBind(b)
  {
    BindRoundTrip(b);
  }

  /** A body reads back under the command ID it is emitted with exactly when it fits. */
  lemma WireRoundTrip(body: Body)
    ensures DecodeBody(CommandID(body), MarshalBody(body)) == Ok(body) <==> FitsWire(body)
  {
    match body
    case BindRequest(b) => BindRequestRoundTrip(b);
    case BindResponse(id) => IdRoundTrip(id);
    case SubmitSM(s) => SubmitRoundTrip(s);
    case SubmitSMResp(id) => IdRoundTrip(id);
    case DeliverSM(s) => DeliverRoundTrip(s);
    case DeliverSMResp(id) => IdRoundTrip(id);
    case _ =>
  }

  // ---------------------------------------------------------------- PDUs

  /** The numbers that so many octets can hold. */
  function Bound(width: nat): nat {
    if width == 0 then 1 else 0x100 * Bound(width - 1)
  }

  /** The octets of a number, most significant first. */
  function Octets(n: nat, width: nat): (b: seq<byte>)
    ensures |b| == width
  {
    if width == 0 then [] else Octets(n / 0x100, width - 1) + [n % 0x100]
  }

  function Number(b: seq<byte>): (n: nat)
    ensures n < Bound(|b|)
  {
    if b == [] then 0 else Number(b[..|b| - 1]) * 0x100 + b[|b| - 1]
  }

  lemma {:induction false} NumberOfOctets(n: nat, width: nat)
    requires n < Bound(width)
    ensures Number(Octets(n, width)) == n
  {
    if width > 0 {
      NumberOfOctets(n / 0x100, width - 1);
      assert Octets(n, width)[..width - 1] == Octets(n / 0x100, width - 1);
    }
  }

  function BigEndian32(n: uint32): (b: seq<byte>)
    ensures |b| == 4
  {
    Octets(n, 4)
  }

  function Uint32(b: seq<byte>): uint32
    requires |b| == 4
  {
    FourOctetBound();
    Number(b)
  }

  lemma FourOctetBound()
    ensures Bound(4) == 0x1_0000_0000
  {
    assert Bound(1) == 0x100 && Bound(2) == 0x1_0000 && Bound(3) == 0x100_0000;
  }

  lemma Uint32RoundTrip(n: uint32)
    ensures Uint32(BigEndian32(n)) == n
  {
    FourOctetBound();
    NumberOfOctets(n, 4);
  }

  datatype PDUHeader = PDUHeader(commandLength: uint32, commandID: uint32, commandStatus: uint32, sequenceNum: uint32)
  datatype PDU = PDU(header: PDUHeader, body: Body)

  function HeaderBytes(h: PDUHeader): (b: seq<byte>)
    ensures |b| == 16
  {
    BigEndian32(h.commandLength) + BigEndian32(h.commandID) + BigEndian32(h.commandStatus) + BigEndian32(h.sequenceNum)
  }

  function ParseHeader(b: seq<byte>): PDUHeader
    requires |b| >= 16
  {
    PDUHeader(Uint32(b[0..4]), Uint32(b[4..8]), Uint32(b[8..12]), Uint32(b[12..16]))
  }

  lemma HeaderRoundTrip(h: PDUHeader, rest: seq<byte>)
    ensures ParseHeader(HeaderBytes(h) + rest) == h
    ensures (HeaderBytes(h) + rest)[16..] == rest
  {
    var b := HeaderBytes(h) + rest;
    assert b[0..4] == BigEndian32(h.commandLength) && b[4..8] == BigEndian32(h.commandID);
    assert b[8..12] == BigEndian32(h.commandStatus) && b[12..16] == BigEndian32(h.sequenceNum);
    Uint32RoundTrip(h.commandLength);
    Uint32RoundTrip(h.commandID);
    Uint32RoundTrip(h.commandStatus);
    Uint32RoundTrip(h.sequenceNum);
  }

  /** The PDU as it is emitted: length and command ID follow from the body. */
  function Normalised(p: PDU): PDU {
    p.(header := p.header.(commandLength := (16 + |MarshalBody(p.body)|) % 0x1_0000_0000, commandID := CommandID(p.body)))
  }

  function Encoded(p: PDU): seq<byte> {
    HeaderBytes(Normalised(p).header) + MarshalBody(p.body)
  }

  /** The header and the body octets of a complete frame. */
  datatype RawFrame = RawFrame(header: PDUHeader, body: seq<byte>)

  function ParseFrame(data: seq<byte>): Result<RawFrame> {
    if |data| < 16 then Err(InsufficientData)
    else
      var header := ParseHeader(data);
      if header.commandLength < 16 then Err(InvalidCommandLength)
      else if |data| % 0x1_0000_0000 < header.commandLength then Err(InsufficientData)
      else Ok(RawFrame(header, data[16..header.commandLength]))
  }

  function PduOf(f: RawFrame): Result<PDU> {
    var body :- DecodeBody(f.header.commandID, f.body);
    Ok(PDU(f.header, body))
  }

  function DecodedPdu(data: seq<byte>): Result<PDU> {
    var f :- ParseFrame(data);
    PduOf(f)
  }

  /** One read off a stream: its result, and what is left of the stream. */
  datatype Framed<T> = Framed(result: Result<T>, rest: seq<byte>)

  function ReadRaw(stream: seq<byte>): (f: Framed<RawFrame>)
    ensures |f.rest| <= |stream|
    ensures f.result.Ok? ==> |f.rest| < |stream|
  {
    if |stream| < 16 then Framed(Err(EndOfStream), [])
    else
      var length := Uint32(stream[0..4]);
      if length < 16 then Framed(Err(InvalidCommandLength), stream[16..])
      else if |stream| < length then Framed(Err(EndOfStream), [])
      else Framed(ParseFrame(stream[..length]), stream[length..])
  }

  function ReadFrame(stream: seq<byte>): (f: Framed<PDU>)
    ensures |f.rest| <= |stream|
    ensures f.result.Ok? ==> |f.rest| < |stream|
  {
    var f := ReadRaw(stream);
    Framed(if f.result.Err? then Err(f.result.error) else PduOf(f.result.value), f.rest)
  }

  /** Reading PDU after PDU until the stream is used up. */
  function ReadStream(stream: seq<byte>): Result<seq<PDU>>
    decreases |stream|
  {
    if stream == [] then Ok([])
    else
      var f := ReadFrame(stream);
      var first :- f.result;
      var others :- ReadStream(f.rest);
      Ok([first] + others)
  }

  function EncodedStream(ps: seq<PDU>): seq<byte> {
    if ps == [] then [] else Encoded(ps[0]) + EncodedStream(ps[1..])
  }

  function NormalisedAll(ps: seq<PDU>): (qs: seq<PDU>)
    ensures |qs| == |ps|
  {
    seq(|ps|, i requires 0 <= i < |ps| => Normalised(ps[i]))
  }

  /** The length field can hold the length. */
  predicate LengthFits(p: PDU) {
    16 + |MarshalBody(p.body)| < 0x1_0000_0000
  }

  /** Framing alone: header and body octets come back, and the reader stops after them. */
  lemma RawRoundTrip(h: PDUHeader, body: seq<byte>, tail: seq<byte>)
    requires h.commandLength == 16 + |body|
    ensures ReadRaw(HeaderBytes(h) + body + tail) == Framed(Ok(RawFrame(h, body)), tail)
  {
    var stream := HeaderBytes(h) + body + tail;
    var length := h.commandLength;
    Associate(HeaderBytes(h), body, tail);
    HeaderRoundTrip(h, body + tail);
    HeaderRoundTrip(h, body);
    assert stream[..length] == HeaderBytes(h) + body && stream[length..] == tail;
    assert Uint32(stream[0..4]) == length;
    assert (HeaderBytes(h) + body)[16..length] == body;
  }

  lemma PduRoundTrip(p: PDU)
    ensures PduOf(RawFrame(Normalised(p).header, MarshalBody(p.body))) == Ok(Normalised(p)) <==> FitsWire(p.body)
  {
    WireRoundTrip(p.body);
  }

  lemma FrameOfRaw(h: PDUHeader, body: seq<byte>, tail: seq<byte>)
    requires h.commandLength == 16 + |body|
    ensures ReadFrame(HeaderBytes(h) + body + tail) == Framed(PduOf(RawFrame(h, body)), tail)
  {
    RawRoundTrip(h, body, tail);
  }

  lemma FrameOfEncoded(p: PDU, tail: seq<byte>)
    requires LengthFits(p)
    ensures ReadFrame(Encoded(p) + tail).rest == tail
    ensures ReadFrame(Encoded(p) + tail).result == Ok(Normalised(p)) <==> FitsWire(p.body)
  {
    var h := Normalised(p).header;
    assert h.commandLength == 16 + |MarshalBody(p.body)|;
    FrameOfRaw(h, MarshalBody(p.body), tail);
    PduRoundTrip(p);
  }

  lemma ReadsFirst(stream: seq<byte>, rest: seq<byte>, p: PDU, qs: seq<PDU>)
    requires stream != [] && ReadFrame(stream).rest == rest
    ensures ReadStream(stream) == Ok([p] + qs) <==> ReadFrame(stream).result == Ok(p) && ReadStream(rest) == Ok(qs)
  {
    assert ([p] + qs)[0] == p && ([p] + qs)[1..] == qs;
    if ReadFrame(stream).result.Ok? && ReadStream(rest).Ok? {
      var first, others := ReadFrame(stream).result.value, ReadStream(rest).value;
      assert ([first] + others)[0] == first && ([first] + others)[1..] == others;
    }
  }

  predicate AllFit(ps: seq<PDU>) {
    forall i | 0 <= i < |ps| :: FitsWire(ps[i].body)
  }

  lemma AllFitCons(ps: seq<PDU>)
    requires ps != []
    ensures AllFit(ps) <==> FitsWire(ps[0].body) && AllFit(ps[1..])
  {
    if AllFit(ps[1..]) {
      forall i | 1 <= i < |ps| ensures ps[i] == ps[1..][i - 1] {}
    }
  }

  lemma NormalisedCons(ps: seq<PDU>)
    requires ps != []
    ensures NormalisedAll(ps) == [Normalised(ps[0])] + NormalisedAll(ps[1..])
  {
  }

  lemma StreamCons(p: PDU, rest: seq<byte>, qs: seq<PDU>)
    requires LengthFits(p)
    ensures ReadStream(Encoded(p) + rest) == Ok([Normalised(p)] + qs) <==> FitsWire(p.body) && ReadStream(rest) == Ok(qs)
  {
    FrameOfEncoded(p, rest);
    ReadsFirst(Encoded(p) + rest, rest, Normalised(p), qs);
  }

  /** A stream of encoded PDUs reads back as exactly those PDUs, every octet used, exactly
      when all their bodies fit. */
  lemma {:induction false} StreamRoundTrip(ps: seq<PDU>)
    requires forall i | 0 <= i < |ps| :: LengthFits(ps[i])
    ensures ReadStream(EncodedStream(ps)) == Ok(NormalisedAll(ps)) <==> AllFit(ps)
  {
    if ps != [] {
      StreamRoundTrip(ps[1..]);
      AllFitCons(ps);
      NormalisedCons(ps);
      StreamCons(ps[0], EncodedStream(ps[1..]), NormalisedAll(ps[1..]));
    }
  }

  /** A bind_receiver or bind_transmitter PDU is emitted, and read back, as bind_transceiver. */
  lemma BindsBecomeTransceiver(p: PDU, tail: seq<byte>)
    requires p.body.BindRequest? && FitsWire(p.body)
    ensures ReadFrame(Encoded(p) + tail).result ==
            Ok(PDU(PDUHeader(98, 9, p.header.commandStatus, p.header.sequenceNum), p.body))
  {
    assert |MarshalBody(p.body)| == BIND_LENGTH;
    FrameOfEncoded(p, tail);
  }

  // ---------------------------------------------------------------- the code

  class PduObject {
    var header: PDUHeader
    var body: Body

    constructor (p: PDU)
      ensures header == p.header && body == p.body
    {
      header, body := p.header, p.body;
    }
  }

  method MarshalOf(body: Body) returns (bytes: seq<byte>)
    ensures bytes == MarshalBody(body)
  {
    match body
    case SubmitSM(s) =>
      var pdu := new ShortMessagePdu(s);
      bytes := pdu.Marshal();
    case DeliverSM(s) =>
      var pdu := new ShortMessagePdu(s);
      bytes := pdu.Marshal();
    case _ =>
      bytes := MarshalBody(body);
  }

  /** PDUEncoder.Encode: overwrites length and command ID of the PDU it is given. */
  method Encode(pdu: PduObject) returns (bytes: seq<byte>)
    modifies pdu`header
    ensures pdu.header == Normalised(PDU(old(pdu.header), pdu.body)).header
    ensures bytes == Encoded(PDU(old(pdu.header), pdu.body))
  {
    var bodyData := MarshalOf(pdu.body);
    pdu.header := pdu.header.(commandLength := (16 + |bodyData|) % 0x1_0000_0000);
    pdu.header := pdu.header.(commandID := CommandID(pdu.body));
    var buf := BigEndian32(pdu.header.commandLength);
    buf := buf + BigEndian32(pdu.header.commandID);
    buf := buf + BigEndian32(pdu.header.commandStatus);
    buf := buf + BigEndian32(pdu.header.sequenceNum);
    bytes := buf + bodyData;
  }

  method UnmarshalOf(zero: Body, data: seq<byte>) returns (r: Result<Body>)
    ensures r == UnmarshalBody(zero, data)
  {
    match zero
    case SubmitSM(s) =>
      var pdu := new ShortMessagePdu(s);
      var ok := pdu.Unmarshal(data);
      r := if ok.Err? then Err(ok.error) else Ok(SubmitSM(pdu.View()));
    case DeliverSM(s) =>
      var pdu := new ShortMessagePdu(s);
      var ok := pdu.Unmarshal(data);
      r := if ok.Err? then Err(ok.error) else Ok(DeliverSM(pdu.View()));
    case _ =>
      r := UnmarshalBody(zero, data);
  }

  method Decode(data: seq<byte>) returns (r: Result<PDU>)
    ensures r == DecodedPdu(data)
  {
    if |data| < 16 {
      return Err(InsufficientData);
    }
    var header := PDUHeader(Uint32(data[0..4]), Uint32(data[4..8]), Uint32(data[8..12]), Uint32(data[12..16]));
    if header.commandLength < 16 {
      return Err(InvalidCommandLength);
    }
    if |data| % 0x1_0000_0000 < header.commandLength {
      return Err(InsufficientData);
    }
    var bodyLen := header.commandLength - 16;
    var bodyData := data[16..16 + bodyLen];
    var body :- CreatePDUBody(header.commandID);
    if |bodyData| > 0 {
      body :- UnmarshalOf(body, bodyData);
    }
    r := Ok(PDU(header, body));
  }

  /** An io.Reader over the octets still to come. */
  class Reader {
    var data: seq<byte>

    constructor (bytes: seq<byte>)
      ensures data == bytes
    {
      data := bytes;
    }

    /** `io.ReadFull`: n octets, or whatever there is and an error. */
    method ReadFull(n: nat) returns (r: Result<seq<byte>>)
      modifies this
      ensures |old(data)| >= n ==> r == Ok(old(data)[..n]) && data == old(data)[n..]
      ensures |old(data)| < n ==> r == Err(EndOfStream) && data == []
    {
      if |data| < n {
        data := [];
        return Err(EndOfStream);
      }
      r := Ok(data[..n]);
      data := data[n..];
    }
  }

  method DecodeFromReader(reader: Reader) returns (r: Result<PDU>)
    modifies reader
    ensures Framed(r, reader.data) == ReadFrame(old(reader.data))
  {
    ghost var stream := reader.data;
    var headerBuf :- reader.ReadFull(16);
    assert headerBuf[0..4] == stream[0..4];
    var commandLength := Uint32(headerBuf[0..4]);
    if commandLength < 16 {
      return Err(InvalidCommandLength);
    }
    var remainingLen := commandLength - 16;
    var totalData := headerBuf;
    if remainingLen > 0 {
      var remaining :- reader.ReadFull(remainingLen);
      totalData := totalData + remaining;
    }
    assert totalData == stream[..commandLength] && reader.data == stream[commandLength..];
    r := Decode(totalData);
  }

  /** Reading a whole stream PDU by PDU, as the connection loop does. */
  method DecodeAll(reader: Reader) returns (r: Result<seq<PDU>>)
    modifies reader
    ensures r == ReadStream(old(reader.data))
    decreases |reader.data|
  {
    if reader.data == [] {
      return Ok([]);
    }
    var first :- DecodeFromReader(reader);
    var others :- DecodeAll(reader);
    r := Ok([first] + others);
  }

  // ---------------------------------------------------------------- octets and numbers

  lemma FourOctets(n: uint32)
    ensures BigEndian32(n) == [n / 16777216, n / 65536 % 256, n / 256 % 256, n % 256]
  {
    var a, b, c := n / 256, n / 256 / 256, n / 256 / 256 / 256;
    assert b == n / 65536 && c == n / 16777216;
    assert Octets(c, 1) == [c] && Octets(b, 2) == [c, b % 256] && Octets(a, 3) == [c, b % 256, a % 256];
  }

  /** Length, command ID, status and sequence number, each in four octets, most significant first. */
  lemma HeaderOctets(h: PDUHeader)
    ensures var b := HeaderBytes(h);
            && b[0..4] == [h.commandLength / 16777216, h.commandLength / 65536 % 256, h.commandLength / 256 % 256,
                           h.commandLength % 256]
            && b[4..8] == [h.commandID / 16777216, h.commandID / 65536 % 256, h.commandID / 256 % 256, h.commandID % 256]
            && b[8..12] == [h.commandStatus / 16777216, h.commandStatus / 65536 % 256, h.commandStatus / 256 % 256,
                            h.commandStatus % 256]
            && b[12..16] == [h.sequenceNum / 16777216, h.sequenceNum / 65536 % 256, h.sequenceNum / 256 % 256,
                             h.sequenceNum % 256]
  {
    FourOctets(h.commandLength);
    FourOctets(h.commandID);
    FourOctets(h.commandStatus);
    FourOctets(h.sequenceNum);
    var b := HeaderBytes(h);
    assert b[0..4] == BigEndian32(h.commandLength) && b[4..8] == BigEndian32(h.commandID);
    assert b[8..12] == BigEndian32(h.commandStatus) && b[12..16] == BigEndian32(h.sequenceNum);
  }

  /** The places of the fields in a bind request. */
  lemma BindOctets(b: BindFields)
    ensures var d := MarshalBind(b);
            && |d| == 82
            && d[0..16] == Pad(b.systemID, 16) && d[16..25] == Pad(b.password, 9) && d[25..38] == Pad(b.systemType, 13)
            && d[38] == b.interfaceVersion && d[39] == b.addrTON && d[40] == b.addrNPI
            && d[41..82] == Pad(b.addressRange, 41)
  {
  }

  /** The command IDs under which a kind of body is read, in the numbers of section 5.1.2.1 of SMPP 3.4. */
  function ReadUnder(body: Body): set<uint32> {
    match body
    case BindRequest(_) => {0x1, 0x2, 0x9}
    case BindResponse(_) => {0x8000_0001, 0x8000_0002, 0x8000_0009}
    case SubmitSM(_) => {0x4}
    case SubmitSMResp(_) => {0x8000_0004}
    case DeliverSM(_) => {0x5}
    case DeliverSMResp(_) => {0x8000_0005}
    case EnquireLink => {0x15}
    case EnquireLinkResp => {0x8000_0015}
    case Unbind => {0x6}
    case UnbindResp => {0x8000_0006}
    case GenericNack => {}
  }

  /** Whatever is decoded under an ID is of a kind that the ID stands for, and a body is emitted under an
      ID of its kind; only a generic_nack is emitted under one, 0x80000000, that nothing is read under. */
  lemma CommandNumbers(c: uint32, data: seq<byte>, body: Body)
    ensures DecodeBody(c, data).Ok? ==> c in ReadUnder(DecodeBody(c, data).value)
    ensures DecodeBody(c, data) == Err(UnsupportedCommand) <==>
            c !in {1, 2, 4, 5, 6, 9, 0x15, 0x8000_0001, 0x8000_0002, 0x8000_0004, 0x8000_0005, 0x8000_0006,
                   0x8000_0009, 0x8000_0015}
    ensures if body.GenericNack? then CommandID(body) == 0x8000_0000 else CommandID(body) in ReadUnder(body)
    ensures body.BindRequest? ==> CommandID(body) == 9
    ensures body.BindResponse? ==> CommandID(body) == 0x8000_0009
  {
  }

  /** What is read when a header stands alone. */
  lemma EmptyBodies(c: uint32)
    ensures c in {1, 2, 9} ==> DecodeBody(c, []) == Ok(BindRequest(BindFields([], [], [], 0, 0, 0, [])))
    ensures c in {0x8000_0001, 0x8000_0002, 0x8000_0009} ==> DecodeBody(c, []) == Ok(BindResponse([]))
    ensures c == 0x8000_0004 ==> DecodeBody(c, []) == Ok(SubmitSMResp([]))
    ensures c == 0x8000_0005 ==> DecodeBody(c, []) == Ok(DeliverSMResp([]))
  {
  }

  function FromFour(a: int, b: int, c: int, d: int): int {
    a * 16777216 + b * 65536 + c * 256 + d
  }

  /** Why a read fails, and where it leaves the stream: at its end when octets are missing, behind the
      header when the length is too small for one, behind the frame when the command is unknown. */
  lemma FrameErrors(stream: seq<byte>)
    ensures var f := ReadFrame(stream);
            var length := if |stream| < 16 then 0
                          else FromFour(stream[0], stream[1], stream[2], stream[3]);
            && (|stream| < 16 ==> f == Framed(Err(EndOfStream), []))
            && (|stream| >= 16 && length < 16 ==> f == Framed(Err(InvalidCommandLength), stream[16..]))
            && (|stream| >= 16 && length > |stream| ==> f == Framed(Err(EndOfStream), []))
            && (|stream| >= length >= 16 ==> f.rest == stream[length..])
            && (|stream| >= length >= 16 ==>
                  (f.result == Err(UnsupportedCommand) <==> CreatePDUBody(Uint32(stream[4..8])).Err?))
  {
    if |stream| >= 16 {
      NumberOfFour(stream[0..4]);
      var length := Uint32(stream[0..4]);
      if 16 <= length <= |stream| {
        var d := stream[..length];
        assert d[0..4] == stream[0..4] && d[4..8] == stream[4..8];
        assert ReadRaw(stream).result.Ok?;
      }
    }
  }

  lemma NumberOfFour(b: seq<byte>)
    requires |b| == 4
    ensures Uint32(b) == FromFour(b[0], b[1], b[2], b[3])
  {
    NumberSnoc(b[..0], b[0]);
    NumberSnoc(b[..1], b[1]);
    NumberSnoc(b[..2], b[2]);
    NumberSnoc(b[..3], b[3]);
    assert b[..0] + [b[0]] == b[..1] && b[..1] + [b[1]] == b[..2] && b[..2] + [b[2]] == b[..3] && b[..3] + [b[3]] == b;
  }

  lemma NumberSnoc(b: seq<byte>, last: byte)
    ensures Number(b + [last]) == Number(b) * 0x100 + last
  {
    assert (b + [last])[..|b|] == b;
  }
}
