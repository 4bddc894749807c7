/** What the submit and deliver handlers make of a part: they decode its header together with
    its text. */
module PartHandling {
  import opened GoStrings
  import opened Results
  import opened Gsm7
  import opened Ucs2
  import opened TextEncoding
  import opened Messages
  import Segmentation
  import S = Splitter

  // ---------------------------------------------------------------- when a part decodes

  /** Octets of header and text decode in the codings without a length condition only: with an even
      payload, a UCS2 part has an odd number of octets. */
  lemma PartDecodesExactly(gsm: Alphabet, m: Message, id: GoString, text: GoString, payload: seq<byte>,
                           total: byte, partNum: byte)
    requires m.dataCoding == UCS2 ==> |payload| % 2 == 0
    ensures DecodeText(gsm, Part(m, id, text, payload, total, partNum).shortMessage, m.dataCoding).Ok?
       <==> m.dataCoding == GSM7 || m.dataCoding == BINARY
    ensures m.dataCoding == UCS2 ==>
              DecodeText(gsm, Part(m, id, text, payload, total, partNum).shortMessage, m.dataCoding) == Err(OddLength)
  {
  }

  /** The handlers accept a part of the second splitter exactly in GSM 7-bit and binary. */
  lemma SplitterPartDecodesExactly(gsm: Alphabet, m: Message, i: nat)
    requires S.NeedsSplit(m) && S.SplitBySplitter(m).Ok? && i < |S.SplitTexts(m)|
    ensures DecodeText(gsm, S.SplitBySplitter(m).value[i].shortMessage, m.dataCoding).Ok?
       <==> m.dataCoding == GSM7 || m.dataCoding == BINARY
  {
    var texts := S.SplitTexts(m);
    assert S.SplitBySplitter(m).value[i] == S.SplitPart(m, texts, i);
    PartDecodesExactly(gsm, m, S.SplitId(m.id, i + 1), texts[i], S.RawPayload(texts[i], m.dataCoding), |texts|, i + 1);
  }

  /** And a segment of the long-SMS splitter. */
  lemma SegmentDecodesExactly(gsm: Alphabet, m: Message, i: nat)
    requires gsm.Valid() && Segmentation.IsLong(m) && Segmentation.Segmented(gsm, m).Ok?
    requires i < |Pieces(m.text, m.dataCoding)|
    ensures DecodeText(gsm, Segmentation.Segmented(gsm, m).value[i].shortMessage, m.dataCoding).Ok?
       <==> m.dataCoding == GSM7 || m.dataCoding == BINARY
  {
    var pieces := Pieces(m.text, m.dataCoding);
    assert Segmentation.Segmented(gsm, m).value[i] == Segmentation.LongPart(gsm, m, pieces, i);
    PartDecodesExactly(gsm, m, Segmentation.PartId(m.id, i + 1), StringOf(pieces[i]),
                       EncodeRunes(gsm, pieces[i], m.dataCoding), |pieces|, i + 1);
  }

  // ---------------------------------------------------------------- what is decoded

  /** A header in front of the octets makes at least three characters more. */
  lemma HeaderLengthens(gsm: Alphabet, refNum: uint16, total: byte, partNum: byte, payload: seq<byte>)
    ensures |Decode7(gsm, [6] + Udh(refNum, total, partNum) + payload)| >= 3 + |Decode7(gsm, payload)|
  {
    var rest := [High(refNum), Low(refNum), total, partNum];
    var x := rest + payload;
    assert [6] + Udh(refNum, total, partNum) + payload == [6] + ([0] + ([3] + x));
    PrefixLength(gsm, rest, payload);
    PrefixOctet(gsm, 3, x);
    PrefixOctet(gsm, 0, [3] + x);
    PrefixOctet(gsm, 6, [0] + ([3] + x));
  }

  /** GSM 7-bit: no text is read out of header and encoded text. */
  lemma EncodedTextIsSpoiled(gsm: Alphabet, refNum: uint16, total: byte, partNum: byte, rs: seq<rune>)
    requires gsm.Valid()
    ensures StringOf(Decode7(gsm, [6] + Udh(refNum, total, partNum) + Encode7(gsm, rs))) != StringOf(rs)
  {
    var octets := [6] + Udh(refNum, total, partNum) + Encode7(gsm, rs);
    var read := Decode7(gsm, octets);
    HeaderLengthens(gsm, refNum, total, partNum, Encode7(gsm, rs));
    DecodedIsRepresentable(gsm, octets);
    Decode7Encode7(gsm, rs);
    RunesOfStringOf(read);
    RunesOfStringOf(rs);
  }

  lemma {:induction false} EscapeBytes(rs: seq<rune>)
    requires forall i | 0 <= i < |rs| :: rs[i] == 0x1B ==> i == |rs| - 1
    ensures forall j | 0 <= j < |StringOf(rs)| :: StringOf(rs)[j] == ESC ==> j == |StringOf(rs)| - 1
  {
    if rs != [] {
      var head, tail := EncodeRune(rs[0]), StringOf(rs[1..]);
      EscapeBytes(rs[1..]);
      assert forall j | 0 <= j < |head| :: head[j] == ESC ==> rs[0] == 0x1B;
      assert rs[0] == 0x1B ==> rs[1..] == [] && head == [ESC];
      forall j | 0 <= j < |head + tail| && (head + tail)[j] == ESC ensures j == |head + tail| - 1 {
        if j >= |head| {
          assert tail[j - |head|] == ESC;
        }
      }
    }
  }

  /** And none out of header and the text's own octets. */
  lemma RawTextIsSpoiled(gsm: Alphabet, refNum: uint16, total: byte, partNum: byte, text: GoString)
    requires gsm.Valid()
    ensures StringOf(Decode7(gsm, [6] + Udh(refNum, total, partNum) + text)) != text
  {
    var octets := [6] + Udh(refNum, total, partNum) + text;
    var read := Decode7(gsm, octets);
    HeaderLengthens(gsm, refNum, total, partNum, text);
    DecodedIsRepresentable(gsm, octets);
    EscapeBytes(read);
    if StringOf(read) == text {
      OneEach(gsm, text);
    }
  }

  /** What the handlers record for a part of the second splitter is never the part's text. */
  lemma SplitterTextIsSpoiled(gsm: Alphabet, m: Message, i: nat)
    requires gsm.Valid() && S.NeedsSplit(m) && S.SplitBySplitter(m).Ok? && i < |S.SplitTexts(m)|
    ensures var part := S.SplitBySplitter(m).value[i];
            DecodeText(gsm, part.shortMessage, m.dataCoding) != Ok(part.text)
  {
    var texts := S.SplitTexts(m);
    assert S.SplitBySplitter(m).value[i] == S.SplitPart(m, texts, i);
    SplitterPartDecodesExactly(gsm, m, i);
    RawTextIsSpoiled(gsm, Reference(m.id), |texts|, i + 1, texts[i]);
  }

  /** Nor is it for a segment. */
  lemma SegmentTextIsSpoiled(gsm: Alphabet, m: Message, i: nat)
    requires gsm.Valid() && Segmentation.IsLong(m) && Segmentation.Segmented(gsm, m).Ok?
    requires i < |Pieces(m.text, m.dataCoding)|
    ensures var part := Segmentation.Segmented(gsm, m).value[i];
            DecodeText(gsm, part.shortMessage, m.dataCoding) != Ok(part.text)
  {
    var pieces := Pieces(m.text, m.dataCoding);
    assert Segmentation.Segmented(gsm, m).value[i] == Segmentation.LongPart(gsm, m, pieces, i);
    SegmentDecodesExactly(gsm, m, i);
    EncodedTextIsSpoiled(gsm, Reference(m.id), |pieces|, i + 1, pieces[i]);
  }
}
