/** The parts of a message in submit_sm and deliver_sm bodies: encoded, streamed, read back and
    reassembled. */
module OverTheWire {
  import opened GoStrings
  import opened Results
  import opened Gsm7
  import opened Ucs2
  import opened Chunking
  import opened TextEncoding
  import opened Messages
  import opened Fields
  import opened ShortMessages
  import Codec
  import R = Reassembly
  import opened RoundTrip
  import Segmentation
  import S = Splitter

  /** A body that carries a message whole, its length cut to an octet.  A caller has to make it: the
      code's own builders drop the UDHI flag and more. */
  function BodyOf(m: Message): ShortMessageBody {
    ShortMessageBody(
      m.serviceType, m.sourceAddr.ton, m.sourceAddr.npi, m.sourceAddr.addr,
      m.destAddr.ton, m.destAddr.npi, m.destAddr.addr, m.esmClass, m.protocolID, m.priorityFlag,
      m.scheduleDeliveryTime, m.validityPeriod, m.registeredDelivery, 0, m.dataCoding, 0,
      |m.shortMessage| % 0x100, m.shortMessage, [])
  }

  predicate FitsFields(m: Message) {
    && FitsField(m.serviceType, SERVICE_TYPE_WIDTH)
    && FitsField(m.sourceAddr.addr, ADDRESS_WIDTH) && FitsField(m.destAddr.addr, ADDRESS_WIDTH)
    && FitsField(m.scheduleDeliveryTime, TIME_WIDTH) && FitsField(m.validityPeriod, TIME_WIDTH)
  }

  predicate FitsPdu(m: Message) {
    FitsFields(m) && 1 <= |m.shortMessage| <= 255
  }

  lemma BodyFitsExactly(m: Message)
    ensures FitsBody(BodyOf(m)) && HasContent(BodyOf(m)) <==> FitsPdu(m)
  {
  }

  predicate Carries(pdu: Codec.PDU, part: Message) {
    pdu.body == Codec.SubmitSM(BodyOf(part)) || pdu.body == Codec.DeliverSM(BodyOf(part))
  }

  predicate CarriesAll(pdus: seq<Codec.PDU>, parts: seq<Message>) {
    |pdus| == |parts| && forall i | 0 <= i < |parts| :: Carries(pdus[i], parts[i])
  }

  /** A message record takes these three fields from the body it is made of. */
  predicate TakenFrom(m: Message, s: ShortMessageBody) {
    m.shortMessage == s.shortMessage && m.esmClass == s.esmClass && m.dataCoding == s.dataCoding
  }

  predicate ReceivedFrom(m: Message, pdu: Codec.PDU) {
    match pdu.body
    case SubmitSM(s) => TakenFrom(m, s)
    case DeliverSM(s) => TakenFrom(m, s)
    case _ => false
  }

  predicate ReceivedAll(received: seq<Message>, pdus: seq<Codec.PDU>) {
    |received| == |pdus| && forall i | 0 <= i < |pdus| :: ReceivedFrom(received[i], pdus[i])
  }

  lemma CarriedExactly(pdu: Codec.PDU, part: Message)
    requires Carries(pdu, part) && |part.shortMessage| < 0x1_0000
    ensures Codec.FitsWire(pdu.body) <==> FitsPdu(part)
    ensures Codec.LengthFits(pdu)
  {
    BodyFitsExactly(part);
    assert |Marshalled(BodyOf(part))| == FIXED_LENGTH + |part.shortMessage|;
  }

  /** A stream of carried messages reads back exactly when each fits a PDU. */
  lemma StreamExactly(pdus: seq<Codec.PDU>, parts: seq<Message>)
    requires CarriesAll(pdus, parts) && forall i | 0 <= i < |parts| :: |parts[i].shortMessage| < 0x1_0000
    ensures Codec.ReadStream(Codec.EncodedStream(pdus)) == Ok(Codec.NormalisedAll(pdus))
       <==> forall i | 0 <= i < |parts| :: FitsPdu(parts[i])
  {
    forall i | 0 <= i < |pdus|
      ensures Codec.LengthFits(pdus[i]) && (Codec.FitsWire(pdus[i].body) <==> FitsPdu(parts[i]))
    {
      CarriedExactly(pdus[i], parts[i]);
    }
    Codec.StreamRoundTrip(pdus);
  }

  lemma ReceivedCarried(m: Message, pdu: Codec.PDU, part: Message)
    requires Carries(pdu, part) && ReceivedFrom(m, Codec.Normalised(pdu))
    ensures m.shortMessage == part.shortMessage && m.esmClass == part.esmClass && m.dataCoding == part.dataCoding
  {
  }

  lemma SameHeader(p: Message, q: Message, k: nat, total: nat, refNum: uint16, payload: seq<byte>)
    requires p.shortMessage == q.shortMessage && p.esmClass == q.esmClass
    ensures IsNumbered(p, k, total, refNum, payload) <==> IsNumbered(q, k, total, refNum, payload)
  {
  }

  /** Parts stay parts on their way. */
  lemma ReceivedAreNumbered(pdus: seq<Codec.PDU>, parts: seq<Message>, received: seq<Message>, m: Message,
                            texts: seq<GoString>, payloads: seq<seq<byte>>)
    requires ArePartsOf(parts, m, texts, payloads) && CarriesAll(pdus, parts)
    requires ReceivedAll(received, Codec.NormalisedAll(pdus))
    ensures AreNumbered(received, Reference(m.id), payloads)
    ensures forall i | 0 <= i < |received| :: received[i].dataCoding == m.dataCoding
    ensures received[0].esmClass == SetUdhi(m.esmClass)
  {
    PartsAreNumbered(parts, m, texts, payloads);
    forall i | 0 <= i < |parts|
      ensures received[i].shortMessage == parts[i].shortMessage
      ensures received[i].esmClass == parts[i].esmClass && received[i].dataCoding == m.dataCoding
    {
      assert ReceivedFrom(received[i], Codec.NormalisedAll(pdus)[i]);
      ReceivedCarried(received[i], pdus[i], parts[i]);
    }
    forall i | 0 <= i < |parts| ensures IsNumbered(received[i], i + 1, |parts|, Reference(m.id), payloads[i]) {
      assert IsNumbered(parts[i], i + 1, |parts|, Reference(m.id), payloads[i]);
      SameHeader(parts[i], received[i], i + 1, |parts|, Reference(m.id), payloads[i]);
    }
  }

  /** Received parts that decode are reassembled, in any order, to part 1 with the read-back text. */
  lemma ReceivedReassemble(gsm: Alphabet, pdus: seq<Codec.PDU>, parts: seq<Message>, received: seq<Message>, m: Message,
                           texts: seq<GoString>, payloads: seq<seq<byte>>, readBack: seq<GoString>, arrived: seq<Message>)
    requires gsm.Valid() && ArePartsOf(parts, m, texts, payloads) && CarriesAll(pdus, parts)
    requires ReceivedAll(received, Codec.NormalisedAll(pdus)) && |readBack| == |parts|
    requires forall i | 0 <= i < |parts| :: DecodeText(gsm, payloads[i], m.dataCoding) == Ok(readBack[i])
    requires EncodeText(gsm, Flatten(readBack), m.dataCoding).Ok?
    requires multiset(arrived) == multiset(received)
    ensures R.Reassembled(gsm, arrived) ==
            Ok(received[0].(text := Flatten(readBack), esmClass := ClearUdhi(m.esmClass),
                            shortMessage := EncodeText(gsm, Flatten(readBack), m.dataCoding).value))
  {
    ReceivedAreNumbered(pdus, parts, received, m, texts, payloads);
    NumberedReassemble(gsm, received, Reference(m.id), payloads, m.dataCoding, readBack, arrived);
    ClearSetUdhi(m.esmClass);
  }

  // ---------------------------------------------------------------- the code's own builders

  const MESSAGE_PAYLOAD: uint16 := 0x0424

  /** More than 255 octets go into a TLV. */
  function BuildSubmitSM(sourceAddr: GoString, destAddr: GoString, message: GoString): ShortMessageBody {
    var inTlv := |message| > 255;
    ShortMessageBody(
      [], 1, 1, sourceAddr, 1, 1, destAddr, 0, 0, 0, [], [], 1, 0, 0, 0,
      if inTlv then 0 else |message|, if inTlv then [] else message,
      if inTlv then [OptionalParameter(MESSAGE_PAYLOAD, |message| % 0x1_0000, message)] else [])
  }

  function BuildDeliverSM(sourceAddr: GoString, destAddr: GoString, message: seq<byte>, coding: byte): ShortMessageBody {
    ShortMessageBody(
      [], 1, 1, sourceAddr, 1, 1, destAddr, 0, 0, 0, [], [], 0, 0, coding, 0, |message| % 0x100, message, [])
  }

  /** A deliver_sm that is marked as a receipt. */
  function AsReceipt(s: ShortMessageBody): ShortMessageBody {
    s.(esmClass := 0x04)
  }

  ghost predicate IsBuilt(body: Codec.Body) {
    || (exists source, dest, message :: body == Codec.SubmitSM(BuildSubmitSM(source, dest, message)))
    || (exists source, dest, message, coding :: body == Codec.DeliverSM(BuildDeliverSM(source, dest, message, coding)))
    || (exists source, dest, message, coding ::
          body == Codec.DeliverSM(AsReceipt(BuildDeliverSM(source, dest, message, coding))))
  }

  /** Whatever is sent in bodies the code builds is never reassembled. */
  lemma BuiltAreNeverReassembled(gsm: Alphabet, pdus: seq<Codec.PDU>, received: seq<Message>)
    requires gsm.Valid() && |pdus| >= 2 && forall i | 0 <= i < |pdus| :: IsBuilt(pdus[i].body)
    requires ReceivedAll(received, Codec.NormalisedAll(pdus))
    ensures R.Reassembled(gsm, received) == Err(MissingUdhi)
  {
    assert ReceivedFrom(received[0], Codec.NormalisedAll(pdus)[0]);
    assert IsBuilt(pdus[0].body);
    assert !HasUdhi(received[0].esmClass);
    FirstDecides(received);
  }

  lemma FirstDecides(parts: seq<Message>)
    requires parts != [] && !HasUdhi(parts[0].esmClass)
    ensures R.ScanParts(parts) == Err(MissingUdhi)
  {
    assert parts[..1][..0] == [] && parts[..1][0] == parts[0];
    R.ScanErrorStays(parts, 1);
  }

  // ---------------------------------------------------------------- the second splitter

  /** A part of the second splitter has at most 160 octets. */
  lemma SplitPartFits(m: Message, i: nat)
    requires S.NeedsSplit(m) && S.SplitBySplitter(m).Ok? && i < |S.SplitTexts(m)|
    ensures 7 <= |S.SplitBySplitter(m).value[i].shortMessage| <= 160
    ensures FitsFields(S.SplitBySplitter(m).value[i]) == FitsFields(m)
  {
    var limit := S.ConcatLimit(m.dataCoding);
    var text := S.SplitTexts(m)[i];
    if m.dataCoding == UCS2 {
      ChunksCover(RunesOf(m.text), limit);
      RunesOfStringOf(Chunks(RunesOf(m.text), limit)[i]);
    } else {
      ChunksCover(m.text, limit);
    }
    assert S.SplitBySplitter(m).value[i] == S.SplitPart(m, S.SplitTexts(m), i);
  }

  /** The parts of the second splitter read back off a stream exactly when the message's fields fit;
      received in any order they are reassembled exactly for the codings the reassembler knows, and
      the text is the original exactly when it is lossless for this splitter. */
  lemma SplitterOverTheWire(gsm: Alphabet, m: Message, pdus: seq<Codec.PDU>, received: seq<Message>, arrived: seq<Message>)
    requires gsm.Valid() && S.NeedsSplit(m) && S.SplitBySplitter(m).Ok?
    requires CarriesAll(pdus, S.SplitBySplitter(m).value)
    requires ReceivedAll(received, Codec.NormalisedAll(pdus)) && multiset(arrived) == multiset(received)
    ensures Codec.ReadStream(Codec.EncodedStream(pdus)) == Ok(Codec.NormalisedAll(pdus)) <==> FitsFields(m)
    ensures |received| >= 2 && (R.Reassembled(gsm, arrived).Ok? <==> Supported(m.dataCoding))
    ensures R.Reassembled(gsm, arrived).Ok? ==>
              var r := R.Reassembled(gsm, arrived).value;
              && r == received[0].(text := r.text, esmClass := ClearUdhi(m.esmClass), shortMessage := r.shortMessage)
              && Ok(r.shortMessage) == EncodeText(gsm, r.text, m.dataCoding)
              && (r.text == m.text <==> S.SplitterLossless(gsm, m.text, m.dataCoding))
  {
    S.SplitTextsCover(m);
    SplitterStream(m, pdus);
    if Supported(m.dataCoding) {
      SplitterReceived(gsm, m, pdus, received, arrived);
    } else {
      SplitterUnsupported(gsm, m, pdus, received, arrived);
    }
  }

  lemma SplitterStream(m: Message, pdus: seq<Codec.PDU>)
    requires S.NeedsSplit(m) && S.SplitBySplitter(m).Ok?
    requires CarriesAll(pdus, S.SplitBySplitter(m).value)
    ensures Codec.ReadStream(Codec.EncodedStream(pdus)) == Ok(Codec.NormalisedAll(pdus)) <==> FitsFields(m)
  {
    var parts := S.SplitBySplitter(m).value;
    S.SplitTextsCover(m);
    forall i | 0 <= i < |parts| ensures |parts[i].shortMessage| < 0x1_0000 && (FitsPdu(parts[i]) <==> FitsFields(m)) {
      SplitPartFits(m, i);
    }
    StreamExactly(pdus, parts);
    assert FitsPdu(parts[0]) <==> FitsFields(m);
  }

  lemma SplitterParts(m: Message)
    requires S.NeedsSplit(m) && S.SplitBySplitter(m).Ok?
    ensures ArePartsOf(S.SplitBySplitter(m).value, m, S.SplitTexts(m), S.RawPayloads(S.SplitTexts(m), m.dataCoding))
  {
    S.SplitTextsCover(m);
  }

  lemma SplitterReceived(gsm: Alphabet, m: Message, pdus: seq<Codec.PDU>, received: seq<Message>, arrived: seq<Message>)
    requires gsm.Valid() && S.NeedsSplit(m) && S.SplitBySplitter(m).Ok? && Supported(m.dataCoding)
    requires CarriesAll(pdus, S.SplitBySplitter(m).value)
    requires ReceivedAll(received, Codec.NormalisedAll(pdus)) && multiset(arrived) == multiset(received)
    ensures R.Reassembled(gsm, arrived).Ok? && |received| >= 2
    ensures var r := R.Reassembled(gsm, arrived).value;
            && r == received[0].(text := r.text, esmClass := ClearUdhi(m.esmClass), shortMessage := r.shortMessage)
            && Ok(r.shortMessage) == EncodeText(gsm, r.text, m.dataCoding)
            && (r.text == m.text <==> S.SplitterLossless(gsm, m.text, m.dataCoding))
  {
    var parts, texts := S.SplitBySplitter(m).value, S.SplitTexts(m);
    var payloads := S.RawPayloads(texts, m.dataCoding);
    SplitterParts(m);
    forall i | 0 <= i < |parts|
      ensures DecodeText(gsm, payloads[i], m.dataCoding) == Ok(S.SplitterBacks(gsm, m)[i])
    {
      S.DecodeRawPayload(gsm, m, i);
    }
    S.BacksExactly(gsm, m);
    ReceivedReassemble(gsm, pdus, parts, received, m, texts, payloads, S.SplitterBacks(gsm, m), arrived);
  }

  lemma SplitterUnsupported(gsm: Alphabet, m: Message, pdus: seq<Codec.PDU>, received: seq<Message>, arrived: seq<Message>)
    requires gsm.Valid() && S.NeedsSplit(m) && S.SplitBySplitter(m).Ok? && !Supported(m.dataCoding)
    requires CarriesAll(pdus, S.SplitBySplitter(m).value)
    requires ReceivedAll(received, Codec.NormalisedAll(pdus)) && multiset(arrived) == multiset(received)
    ensures R.Reassembled(gsm, arrived).Err?
  {
    var payloads := S.RawPayloads(S.SplitTexts(m), m.dataCoding);
    SplitterParts(m);
    ReceivedAreNumbered(pdus, S.SplitBySplitter(m).value, received, m, S.SplitTexts(m), payloads);
    NumberedAreComplete(received, Reference(m.id), payloads);
    R.ReassembledExactly(gsm, received);
    assert received[0] in received;
    R.OrderIndependent(gsm, received, arrived);
  }

  // ---------------------------------------------------------------- the long-SMS splitter

  /** The octets a character takes. */
  function RuneWeight(gsm: Alphabet, r: rune, coding: byte): (n: nat)
    ensures 1 <= n <= 4
  {
    if coding == GSM7 then if r in gsm.extended then 2 else 1
    else if coding == UCS2 then if r >= 0x1_0000 then 4 else 2
    else |EncodeRune(r)|
  }

  function Weight(gsm: Alphabet, rs: seq<rune>, coding: byte): (n: nat)
    ensures n <= 4 * |rs|
  {
    if rs == [] then 0 else RuneWeight(gsm, rs[0], coding) + Weight(gsm, rs[1..], coding)
  }

  lemma WeightOfRune(gsm: Alphabet, r: rune, coding: byte)
    requires gsm.Valid()
    ensures |EncodeRunes(gsm, [r], coding)| == RuneWeight(gsm, r, coding)
  {
    assert [r][1..] == [];
    assert Utf16Encode([r]) == UnitsOfRune(r) + Utf16Encode([]);
    assert Encode7(gsm, [r]) == EncodeRune7(gsm, r) + Encode7(gsm, []);
    assert StringOf([r]) == EncodeRune(r) + StringOf([]);
  }

  /** Encoding takes as many octets as the characters weigh. */
  lemma {:induction false} EncodedWeight(gsm: Alphabet, rs: seq<rune>, coding: byte)
    requires gsm.Valid()
    ensures |EncodeRunes(gsm, rs, coding)| == Weight(gsm, rs, coding)
  {
    if rs != [] {
      EncodedWeight(gsm, rs[1..], coding);
      EncodeRunesConcat(gsm, [rs[0]], rs[1..], coding);
      WeightOfRune(gsm, rs[0], coding);
      assert [rs[0]] + rs[1..] == rs;
    }
  }

  lemma SegmentFits(gsm: Alphabet, m: Message, i: nat)
    requires gsm.Valid() && Segmentation.IsLong(m) && Segmentation.Segmented(gsm, m).Ok?
    requires i < |Pieces(m.text, m.dataCoding)|
    ensures |Segmentation.Segmented(gsm, m).value[i].shortMessage| < 0x1_0000
    ensures FitsPdu(Segmentation.Segmented(gsm, m).value[i]) <==>
            FitsFields(m) && Weight(gsm, Pieces(m.text, m.dataCoding)[i], m.dataCoding) <= 248
  {
    var pieces := Pieces(m.text, m.dataCoding);
    ChunksCover(RunesOf(m.text), GetMaxLength(m.dataCoding, true));
    EncodedWeight(gsm, pieces[i], m.dataCoding);
    assert Segmentation.Segmented(gsm, m).value[i] == Segmentation.LongPart(gsm, m, pieces, i);
  }

  /** No piece of the text weighs more than 248 octets. */
  predicate SegmentsFit(gsm: Alphabet, text: GoString, coding: byte) {
    forall i | 0 <= i < |Pieces(text, coding)| :: Weight(gsm, Pieces(text, coding)[i], coding) <= 248
  }

  lemma SegmentsStream(gsm: Alphabet, m: Message, pdus: seq<Codec.PDU>)
    requires gsm.Valid() && Segmentation.IsLong(m) && Segmentation.Segmented(gsm, m).Ok?
    requires CarriesAll(pdus, Segmentation.Segmented(gsm, m).value)
    ensures Codec.ReadStream(Codec.EncodedStream(pdus)) == Ok(Codec.NormalisedAll(pdus))
       <==> FitsFields(m) && SegmentsFit(gsm, m.text, m.dataCoding)
  {
    var parts, pieces := Segmentation.Segmented(gsm, m).value, Pieces(m.text, m.dataCoding);
    Segmentation.SegmentedCount(gsm, m);
    forall i | 0 <= i < |parts|
      ensures |parts[i].shortMessage| < 0x1_0000
      ensures FitsPdu(parts[i]) <==> FitsFields(m) && Weight(gsm, pieces[i], m.dataCoding) <= 248
    {
      SegmentFits(gsm, m, i);
    }
    StreamExactly(pdus, parts);
    assert FitsPdu(parts[0]) ==> FitsFields(m);
  }

  lemma {:induction false} ExtendedWeight(gsm: Alphabet, rs: seq<rune>)
    requires forall i | 0 <= i < |rs| :: rs[i] in gsm.extended
    ensures Weight(gsm, rs, GSM7) == 2 * |rs|
  {
    if rs != [] {
      ExtendedWeight(gsm, rs[1..]);
    }
  }

  lemma FirstPiece(rs: seq<rune>, coding: byte)
    requires |rs| > GetMaxLength(coding, true)
    ensures Pieces(StringOf(rs), coding) != [] && Pieces(StringOf(rs), coding)[0] == rs[..GetMaxLength(coding, true)]
  {
    RunesOfStringOf(rs);
  }

  /** A long text of extension characters makes segments that no PDU can carry. */
  lemma ExtensionSegmentsDoNotFit(gsm: Alphabet, rs: seq<rune>)
    requires |rs| > 160 && forall i | 0 <= i < |rs| :: rs[i] in gsm.extended
    ensures !SegmentsFit(gsm, StringOf(rs), GSM7)
  {
    FirstPiece(rs, GSM7);
    ExtendedWeight(gsm, rs[..GetMaxLength(GSM7, true)]);
  }

  /** Segments read back off a stream exactly when the fields fit and no piece weighs more than 248 octets;
      received in any order they are reassembled, and the text is the original exactly when it is
      lossless. */
  lemma SegmentsOverTheWire(gsm: Alphabet, m: Message, pdus: seq<Codec.PDU>, received: seq<Message>, arrived: seq<Message>)
    requires gsm.Valid() && Segmentation.IsLong(m) && Segmentation.Segmented(gsm, m).Ok?
    requires CarriesAll(pdus, Segmentation.Segmented(gsm, m).value)
    requires ReceivedAll(received, Codec.NormalisedAll(pdus)) && multiset(arrived) == multiset(received)
    ensures Codec.ReadStream(Codec.EncodedStream(pdus)) == Ok(Codec.NormalisedAll(pdus))
       <==> FitsFields(m) && SegmentsFit(gsm, m.text, m.dataCoding)
    ensures R.Reassembled(gsm, arrived).Ok? && |received| >= 2
    ensures var r := R.Reassembled(gsm, arrived).value;
            && r == received[0].(text := r.text, esmClass := ClearUdhi(m.esmClass), shortMessage := r.shortMessage)
            && Ok(r.shortMessage) == EncodeText(gsm, r.text, m.dataCoding)
            && (r.text == m.text <==> Lossless(gsm, m.text, m.dataCoding))
  {
    var coding, pieces := m.dataCoding, Pieces(m.text, m.dataCoding);
    var parts, backs := Segmentation.Segmented(gsm, m).value, ReadBacks(gsm, pieces, coding);
    SegmentsStream(gsm, m, pdus);
    Segmentation.SegmentedCount(gsm, m);
    forall i | 0 <= i < |pieces|
      ensures DecodeText(gsm, Payloads(gsm, pieces, coding)[i], coding) == Ok(Strings(backs)[i])
    {
      DecodeEncodedRunes(gsm, pieces[i], coding);
    }
    FlattenStrings(backs);
    EncodeTextOfRunes(gsm, Flatten(backs), coding);
    ReadBackIsText(gsm, m.text, coding);
    ReceivedReassemble(gsm, pdus, parts, received, m, Strings(pieces), Payloads(gsm, pieces, coding), Strings(backs), arrived);
  }
}
