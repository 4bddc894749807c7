/** SMSProcessor.ProcessLongSMS. */
module Segmentation {
  import opened GoStrings
  import opened Results
  import opened Gsm7
  import opened Chunking
  import opened TextEncoding
  import opened Messages

  function PartId(id: GoString, partNum: nat): GoString {
    id + Ascii("_part_") + Decimal(partNum)
  }

  function LongPart(gsm: Alphabet, m: Message, pieces: seq<seq<rune>>, i: nat): Message
    requires gsm.Valid() && i < |pieces| <= 255
  {
    Part(m, PartId(m.id, i + 1), StringOf(pieces[i]), EncodeRunes(gsm, pieces[i], m.dataCoding), |pieces|, i + 1)
  }

  function LongParts(gsm: Alphabet, m: Message, pieces: seq<seq<rune>>): (parts: seq<Message>)
    requires gsm.Valid() && |pieces| <= 255
    ensures |parts| == |pieces|
    ensures forall i | 0 <= i < |parts| :: parts[i] == LongPart(gsm, m, pieces, i)
  {
    seq(|pieces|, i requires 0 <= i < |pieces| => LongPart(gsm, m, pieces, i))
  }

  predicate IsLong(m: Message) {
    |RunesOf(m.text)| > GetMaxLength(m.dataCoding, false)
  }

  function Segmented(gsm: Alphabet, m: Message): Result<seq<Message>>
    requires gsm.Valid()
  {
    if !IsLong(m) then Ok([m])
    else
      var pieces := Pieces(m.text, m.dataCoding);
      if |pieces| > 255 then Err(TooManyParts)
      else if !Supported(m.dataCoding) then Err(UnsupportedCoding)
      else Ok(LongParts(gsm, m, pieces))
  }

  lemma LongIsSplit(m: Message)
    requires IsLong(m)
    ensures SplitText(m.text, m.dataCoding) == Strings(Pieces(m.text, m.dataCoding))
    ensures |Pieces(m.text, m.dataCoding)| >= 2
    ensures |Pieces(m.text, m.dataCoding)| == CeilDiv(|RunesOf(m.text)|, GetMaxLength(m.dataCoding, true))
  {
    ChunksCover(RunesOf(m.text), GetMaxLength(m.dataCoding, true));
  }

  method BuildPart(message: Message, part: GoString, encodedPart: seq<byte>, refNum: uint16, total: byte, partNum: byte)
    returns (partMessage: Message)
    requires refNum == Reference(message.id)
    ensures partMessage == Part(message, PartId(message.id, partNum), part, encodedPart, total, partNum)
  {
    partMessage := message.(id := message.id + Ascii("_part_") + Decimal(partNum), text := part);
    var udh := CreateMultipartUDH(refNum, total, partNum);
    partMessage := partMessage.(shortMessage := [|udh|] + udh);
    partMessage := partMessage.(shortMessage := partMessage.shortMessage + encodedPart);
    partMessage := partMessage.(esmClass := SetUdhi(partMessage.esmClass));
  }

  method EncodePart(gsm: Alphabet, part: GoString, ghost piece: seq<rune>, coding: byte)
    returns (r: Result<seq<byte>>)
    requires gsm.Valid() && part == StringOf(piece)
    ensures r == if Supported(coding) then Ok(EncodeRunes(gsm, piece, coding)) else Err(UnsupportedCoding)
  {
    r := Encode(gsm, part, coding);
    if Supported(coding) {
      EncodeTextOfRunes(gsm, piece, coding);
    }
  }

  method ProcessLongSMS(gsm: Alphabet, message: Message) returns (r: Result<seq<Message>>)
    requires gsm.Valid()
    ensures r == Segmented(gsm, message)
  {
    var maxLength := GetMaxLength(message.dataCoding, false);
    var textRunes := RunesOf(message.text);
    if |textRunes| <= maxLength {
      return Ok([message]);
    }
    var parts := SplitMessage(message.text, message.dataCoding);
    ghost var pieces := Pieces(message.text, message.dataCoding);
    LongIsSplit(message);
    if |parts| > 255 {
      return Err(TooManyParts);
    }
    var refNum := GenerateReferenceNumber(message.id);
    var messages: seq<Message> := [];
    for i := 0 to |parts|
      invariant |messages| == i
      invariant i > 0 ==> Supported(message.dataCoding)
      invariant forall k | 0 <= k < i :: messages[k] == LongPart(gsm, message, pieces, k)
    {
      var encodedPart := EncodePart(gsm, parts[i], pieces[i], message.dataCoding);
      if encodedPart.Err? {
        return Err(encodedPart.error);
      }
      var partMessage := BuildPart(message, parts[i], encodedPart.value, refNum, |parts|, i + 1);
      messages := messages + [partMessage];
    }
    assert messages == LongParts(gsm, message, pieces);
    r := Ok(messages);
  }

  /** A successful split returns exactly the estimated number of messages. */
  lemma SegmentedCount(gsm: Alphabet, m: Message)
    requires gsm.Valid() && Segmented(gsm, m).Ok?
    ensures |Segmented(gsm, m).value| == EstimatePartCount(m.text, m.dataCoding)
    ensures IsLong(m) ==> 2 <= |Segmented(gsm, m).value| <= 255
  {
    if IsLong(m) {
      LongIsSplit(m);
    }
  }

  function TextsOf(parts: seq<Message>): (texts: seq<GoString>)
    ensures |texts| == |parts|
    ensures forall i | 0 <= i < |parts| :: texts[i] == parts[i].text
  {
    seq(|parts|, i requires 0 <= i < |parts| => parts[i].text)
  }

  /** The texts of the messages concatenate to the text exactly when it was not split or is valid UTF-8. */
  lemma SegmentTextsExactly(gsm: Alphabet, m: Message)
    requires gsm.Valid() && Segmented(gsm, m).Ok?
    ensures Flatten(TextsOf(Segmented(gsm, m).value)) == m.text <==> !IsLong(m) || ValidString(m.text)
  {
    var texts := TextsOf(Segmented(gsm, m).value);
    if IsLong(m) {
      assert texts == Strings(Pieces(m.text, m.dataCoding));
      RunePiecesExactly(m.text, GetMaxLength(m.dataCoding, true));
    } else {
      assert texts == [m.text] && Flatten(texts) == m.text + Flatten([]);
    }
  }

  // ---------------------------------------------------------------- the parts, field by field

  /** A short text gives the message itself; a long one is refused above 255 pieces, and in a coding
      without an encoder. */
  lemma SegmentedExactly(gsm: Alphabet, m: Message)
    requires gsm.Valid()
    ensures var runes, limit := |RunesOf(m.text)|, GetMaxLength(m.dataCoding, false);
            var count := CeilDiv(runes, GetMaxLength(m.dataCoding, true));
            && (runes <= limit ==> Segmented(gsm, m) == Ok([m]))
            && (runes > limit && count > 255 ==> Segmented(gsm, m) == Err(TooManyParts))
            && (runes > limit && count <= 255 && m.dataCoding !in {0, 4, 8} ==> Segmented(gsm, m) == Err(UnsupportedCoding))
            && (runes > limit && count <= 255 && m.dataCoding in {0, 4, 8} ==>
                  Segmented(gsm, m).Ok? && |Segmented(gsm, m).value| == count)
  {
    if IsLong(m) {
      LongIsSplit(m);
    }
  }

  /** What ID, flag and header the i-th of n parts has; everything but text and payload is otherwise as in the message. */
  predicate IsPart(part: Message, m: Message, mark: GoString, i: nat, n: nat) {
    && part == m.(id := m.id + mark + Decimal(i + 1), text := part.text, shortMessage := part.shortMessage,
                  esmClass := if m.esmClass % 128 >= 64 then m.esmClass else m.esmClass + 64)
    && |part.shortMessage| >= 7
    && part.shortMessage[..7] == [6, 0, 3, Reference(m.id) / 256, Reference(m.id) % 256, n, i + 1]
  }

  lemma PartIsPart(m: Message, mark: GoString, text: GoString, payload: seq<byte>, n: byte, i: nat)
    requires i < 255
    ensures var part := Part(m, m.id + mark + Decimal(i + 1), text, payload, n, i + 1);
            IsPart(part, m, mark, i, n) && part.shortMessage[7..] == payload && part.text == text
  {
    UdhiBit(m.esmClass);
    UdhOctets(Reference(m.id), n, i + 1);
    var sm := [6] + Udh(Reference(m.id), n, i + 1) + payload;
    assert sm[..7] == [6] + Udh(Reference(m.id), n, i + 1) && sm[7..] == payload;
  }

  lemma PartsHaveOwnIds(parts: seq<Message>, m: Message, mark: GoString)
    requires forall i | 0 <= i < |parts| :: IsPart(parts[i], m, mark, i, |parts|)
    ensures forall i, j | 0 <= i < j < |parts| :: parts[i].id != parts[j].id
  {
    forall i, j | 0 <= i < j < |parts| ensures parts[i].id != parts[j].id {
      NumberedApart(m.id + mark, i + 1, j + 1);
      assert IsPart(parts[i], m, mark, i, |parts|) && IsPart(parts[j], m, mark, j, |parts|);
    }
  }

  /** Every part of a long message is the message with an ID and a header of its own, and behind the
      header the part's text encoded. */
  lemma SegmentsExactly(gsm: Alphabet, m: Message)
    requires gsm.Valid() && IsLong(m) && Segmented(gsm, m).Ok?
    ensures var parts := Segmented(gsm, m).value;
            && (forall i | 0 <= i < |parts| :: IsPart(parts[i], m, Ascii("_part_"), i, |parts|))
            && (forall i, j | 0 <= i < j < |parts| :: parts[i].id != parts[j].id)
            && (forall i | 0 <= i < |parts| :: EncodeText(gsm, parts[i].text, m.dataCoding) == Ok(parts[i].shortMessage[7..]))
  {
    var parts := Segmented(gsm, m).value;
    var pieces := Pieces(m.text, m.dataCoding);
    forall i | 0 <= i < |parts|
      ensures IsPart(parts[i], m, Ascii("_part_"), i, |parts|)
      ensures EncodeText(gsm, parts[i].text, m.dataCoding) == Ok(parts[i].shortMessage[7..])
    {
      LongPartAt(gsm, m, pieces, i);
    }
    PartsHaveOwnIds(parts, m, Ascii("_part_"));
  }

  /** Every part but the last has as many runes of the text as fit. */
  lemma SegmentsAreFull(gsm: Alphabet, m: Message)
    requires gsm.Valid() && IsLong(m) && Segmented(gsm, m).Ok?
    ensures var parts, limit := Segmented(gsm, m).value, GetMaxLength(m.dataCoding, true);
            && (forall i | 0 <= i < |parts| :: 1 <= |RunesOf(parts[i].text)| <= limit)
            && (forall i | 0 <= i < |parts| - 1 :: |RunesOf(parts[i].text)| == limit)
  {
    var parts := Segmented(gsm, m).value;
    var pieces := Pieces(m.text, m.dataCoding);
    ChunksCover(RunesOf(m.text), GetMaxLength(m.dataCoding, true));
    forall i | 0 <= i < |parts| ensures RunesOf(parts[i].text) == pieces[i] {
      RunesOfStringOf(pieces[i]);
    }
  }

  lemma LongPartAt(gsm: Alphabet, m: Message, pieces: seq<seq<rune>>, i: nat)
    requires gsm.Valid() && i < |pieces| <= 255 && Supported(m.dataCoding)
    ensures var part := LongPart(gsm, m, pieces, i);
            && IsPart(part, m, Ascii("_part_"), i, |pieces|)
            && EncodeText(gsm, part.text, m.dataCoding) == Ok(part.shortMessage[7..])
  {
    PartIsPart(m, Ascii("_part_"), StringOf(pieces[i]), EncodeRunes(gsm, pieces[i], m.dataCoding), |pieces|, i);
    EncodeTextOfRunes(gsm, pieces[i], m.dataCoding);
  }
}
