/** Splitting a long message and reassembling its parts, in any order of arrival. */
module RoundTrip {
  import opened GoStrings
  import opened Results
  import opened Gsm7
  import opened Chunking
  import opened TextEncoding
  import opened Messages
  import opened Segmentation
  import opened Reassembly

  // ---------------------------------------------------------------- any list of parts of one message

  lemma PartParses(m: Message, id: GoString, text: GoString, payload: seq<byte>, total: byte, partNum: byte)
    ensures var p := Part(m, id, text, payload, total, partNum);
            ParsePart(p) == Ok(PartInfo(p, partNum, total, Reference(m.id))) && Payload(p) == payload
  {
  }

  /** parts[i] is part i+1 of m, with the given text and payload. */
  ghost predicate ArePartsOf(parts: seq<Message>, m: Message, texts: seq<GoString>, payloads: seq<seq<byte>>) {
    && 2 <= |parts| <= 255
    && |parts| == |texts| == |payloads|
    && forall i | 0 <= i < |parts| ::
         parts[i] == Part(m, parts[i].id, texts[i], payloads[i], |parts|, i + 1)
  }

  /** The part parses, with the given number, total, reference and payload. */
  predicate IsNumbered(part: Message, partNum: nat, total: nat, refNum: uint16, payload: seq<byte>) {
    && ParsePart(part).Ok? && Payload(part) == payload
    && ParsePart(part).value.partNum == partNum
    && ParsePart(part).value.totalParts == total && ParsePart(part).value.refNum == refNum
  }

  /** parts[i] is part i+1 of all of them, with the given payload. */
  ghost predicate AreNumbered(parts: seq<Message>, refNum: uint16, payloads: seq<seq<byte>>) {
    && 2 <= |parts| <= 255 && |parts| == |payloads|
    && forall i | 0 <= i < |parts| :: IsNumbered(parts[i], i + 1, |parts|, refNum, payloads[i])
  }

  lemma PartsAreNumbered(parts: seq<Message>, m: Message, texts: seq<GoString>, payloads: seq<seq<byte>>)
    requires ArePartsOf(parts, m, texts, payloads)
    ensures AreNumbered(parts, Reference(m.id), payloads)
  {
    forall i | 0 <= i < |parts| ensures IsNumbered(parts[i], i + 1, |parts|, Reference(m.id), payloads[i]) {
      PartParses(m, parts[i].id, texts[i], payloads[i], |parts|, i + 1);
    }
  }

  lemma NumberedAreConsistent(parts: seq<Message>, refNum: uint16, payloads: seq<seq<byte>>)
    requires AreNumbered(parts, refNum, payloads)
    ensures Consistent(parts) && forall m | m in parts :: ParsePart(m).value.totalParts == |parts|
  {
    forall m | m in parts
      ensures ParsePart(m).Ok? && ParsePart(m).value.totalParts == |parts| && ParsePart(m).value.refNum == refNum
    {
      var i :| 0 <= i < |parts| && parts[i] == m;
      assert IsNumbered(parts[i], i + 1, |parts|, refNum, payloads[i]);
    }
  }

  lemma NumberedAreComplete(parts: seq<Message>, refNum: uint16, payloads: seq<seq<byte>>)
    requires AreNumbered(parts, refNum, payloads)
    ensures CompleteSet(parts)
    ensures forall i | 0 <= i < |parts| :: Ordered(parts)[i].message == parts[i] && Payload(parts[i]) == payloads[i]
  {
    NumberedAreConsistent(parts, refNum, payloads);
    forall i | 0 <= i < |parts|
      ensures ParsePart(parts[i]).value.partNum == i + 1 && Payload(parts[i]) == payloads[i]
    {
      assert IsNumbered(parts[i], i + 1, |parts|, refNum, payloads[i]);
    }
    forall k | 1 <= k <= |parts| ensures BorneOnce(parts, k) {
      assert OnlyBearer(parts, k - 1, k);
    }
    forall i | 0 <= i < |parts| ensures Ordered(parts)[i].message == parts[i] {
      OrderedAt(parts, i);
    }
  }

  lemma OrderedAt(parts: seq<Message>, i: nat)
    requires CompleteSet(parts) && i < |parts|
    requires forall j | 0 <= j < |parts| :: ParsePart(parts[j]).value.partNum == j + 1
    ensures Ordered(parts)[i].message == parts[i]
  {
    var info := Ordered(parts)[i];
    assert ParsePart(info.message) == Ok(info);
    var j :| 0 <= j < |parts| && parts[j] == info.message;
  }

  lemma {:induction false} JoinTextsOf(gsm: Alphabet, infos: seq<PartInfo>, texts: seq<GoString>)
    requires Parsed(infos) && |infos| == |texts|
    requires forall i | 0 <= i < |infos| ::
               DecodeText(gsm, Payload(infos[i].message), infos[i].message.dataCoding) == Ok(texts[i])
    ensures JoinTexts(gsm, infos) == Ok(Flatten(texts))
  {
    if infos != [] {
      var n := |infos| - 1;
      JoinTextsOf(gsm, infos[..n], texts[..n]);
      FlattenAppend(texts[..n], texts[n]);
      assert texts[..n] + [texts[n]] == texts;
    }
  }

  /** Whatever order numbered parts arrive in, the result is part 1 with the read-back text. */
  lemma NumberedReassemble(gsm: Alphabet, parts: seq<Message>, refNum: uint16, payloads: seq<seq<byte>>,
                           coding: byte, readBack: seq<GoString>, arrived: seq<Message>)
    requires gsm.Valid() && AreNumbered(parts, refNum, payloads) && |readBack| == |parts|
    requires forall i | 0 <= i < |parts| :: parts[i].dataCoding == coding
    requires forall i | 0 <= i < |parts| :: DecodeText(gsm, payloads[i], coding) == Ok(readBack[i])
    requires EncodeText(gsm, Flatten(readBack), coding).Ok?
    requires multiset(arrived) == multiset(parts)
    ensures Reassembled(gsm, arrived) ==
            Ok(parts[0].(text := Flatten(readBack), esmClass := ClearUdhi(parts[0].esmClass),
                         shortMessage := EncodeText(gsm, Flatten(readBack), coding).value))
  {
    NumberedAreComplete(parts, refNum, payloads);
    JoinTextsOf(gsm, Ordered(parts), readBack);
    ReassembledExactly(gsm, parts);
    OrderIndependent(gsm, parts, arrived);
  }

  /** The parts of one message give that message, with the read-back text. */
  lemma PartsReassemble(gsm: Alphabet, parts: seq<Message>, m: Message, texts: seq<GoString>,
                        payloads: seq<seq<byte>>, readBack: seq<GoString>, arrived: seq<Message>)
    requires gsm.Valid() && ArePartsOf(parts, m, texts, payloads) && |readBack| == |parts|
    requires forall i | 0 <= i < |parts| :: DecodeText(gsm, payloads[i], m.dataCoding) == Ok(readBack[i])
    requires EncodeText(gsm, Flatten(readBack), m.dataCoding).Ok?
    requires multiset(arrived) == multiset(parts)
    ensures Reassembled(gsm, arrived) ==
            Ok(Whole(m, parts[0].id, Flatten(readBack), EncodeText(gsm, Flatten(readBack), m.dataCoding).value))
  {
    PartsAreNumbered(parts, m, texts, payloads);
    assert forall i | 0 <= i < |parts| :: parts[i].dataCoding == m.dataCoding;
    NumberedReassemble(gsm, parts, Reference(m.id), payloads, m.dataCoding, readBack, arrived);
    ClearSetUdhi(m.esmClass);
    assert parts[0] == Part(m, parts[0].id, texts[0], payloads[0], |parts|, 1);
  }

  // ---------------------------------------------------------------- any parts, from their octets

  /** What the parts in order decode to. */
  ghost predicate AreTexts(gsm: Alphabet, parts: seq<Message>, heads: seq<Heading>, order: seq<nat>, texts: seq<GoString>)
    requires CompleteOctets(parts, heads, order)
  {
    && |texts| == |parts|
    && forall k | 0 <= k < |texts| ::
         DecodeText(gsm, heads[order[k]].payload, parts[order[k]].dataCoding) == Ok(texts[k])
  }

  /** Parts whose octets make a complete set, and whose payloads decode, give part 1 with the texts
      joined by number, re-encoded in its coding, without the flag. */
  lemma OctetsReassemble(gsm: Alphabet, parts: seq<Message>, heads: seq<Heading>, order: seq<nat>, texts: seq<GoString>)
    requires gsm.Valid() && |parts| >= 2 && CompleteOctets(parts, heads, order) && AreTexts(gsm, parts, heads, order, texts)
    ensures var first := parts[order[0]];
            var encoded := EncodeText(gsm, Flatten(texts), first.dataCoding);
            Reassembled(gsm, parts) ==
              if encoded.Err? then Err(encoded.error)
              else Ok(first.(text := Flatten(texts), esmClass := first.esmClass - 64, shortMessage := encoded.value))
  {
    OctetsAreComplete(parts, heads, order);
    OctetsAreParsed(parts, heads, order);
    JoinTextsOf(gsm, Ordered(parts), texts);
    ReassembledExactly(gsm, parts);
    UdhiBit(parts[order[0]].esmClass);
  }

  /** And nothing else is reassembled. */
  lemma ReassembledHasOctets(gsm: Alphabet, parts: seq<Message>)
    returns (heads: seq<Heading>, order: seq<nat>, texts: seq<GoString>)
    requires gsm.Valid() && |parts| >= 2 && Reassembled(gsm, parts).Ok?
    ensures CompleteOctets(parts, heads, order) && AreTexts(gsm, parts, heads, order, texts)
  {
    ReassembledExactly(gsm, parts);
    heads, order := CompleteSetInOctets(parts);
    OctetsAreParsed(parts, heads, order);
    assert forall i | 0 <= i < |parts| :: parts[i] in parts;
    texts := TextsInOrder(gsm, parts, heads, order);
  }

  lemma TextsInOrder(gsm: Alphabet, parts: seq<Message>, heads: seq<Heading>, order: seq<nat>)
    returns (texts: seq<GoString>)
    requires CompleteOctets(parts, heads, order)
    requires forall i | 0 <= i < |parts| :: DecodeText(gsm, heads[i].payload, parts[i].dataCoding).Ok?
    ensures AreTexts(gsm, parts, heads, order, texts)
  {
    texts := seq(|parts|, k requires 0 <= k < |parts| =>
      DecodeText(gsm, heads[order[k]].payload, parts[order[k]].dataCoding).value);
  }

  // ---------------------------------------------------------------- the long-SMS splitter

  function ReadBacks(gsm: Alphabet, pieces: seq<seq<rune>>, coding: byte): (rs: seq<seq<rune>>)
    requires gsm.Valid()
    ensures |rs| == |pieces|
    ensures forall i | 0 <= i < |pieces| :: rs[i] == ReadBack(gsm, pieces[i], coding)
  {
    seq(|pieces|, i requires 0 <= i < |pieces| => ReadBack(gsm, pieces[i], coding))
  }

  function Payloads(gsm: Alphabet, pieces: seq<seq<rune>>, coding: byte): (ps: seq<seq<byte>>)
    requires gsm.Valid()
    ensures |ps| == |pieces|
    ensures forall i | 0 <= i < |pieces| :: ps[i] == EncodeRunes(gsm, pieces[i], coding)
  {
    seq(|pieces|, i requires 0 <= i < |pieces| => EncodeRunes(gsm, pieces[i], coding))
  }

  lemma {:induction false} FlattenPayloads(gsm: Alphabet, pieces: seq<seq<rune>>, coding: byte)
    requires gsm.Valid()
    ensures Flatten(Payloads(gsm, pieces, coding)) == EncodeRunes(gsm, Flatten(pieces), coding)
  {
    if pieces != [] {
      assert Payloads(gsm, pieces, coding)[1..] == Payloads(gsm, pieces[1..], coding);
      FlattenPayloads(gsm, pieces[1..], coding);
      EncodeRunesConcat(gsm, pieces[0], Flatten(pieces[1..]), coding);
    }
  }

  /** The texts a coding carries: valid UTF-8 whose every piece survives. */
  predicate Lossless(gsm: Alphabet, text: GoString, coding: byte) {
    && ValidString(text)
    && forall piece | piece in Pieces(text, coding) :: Carries(gsm, piece, coding)
  }

  /** U+001B may stand only where the decoder finds nothing after it: at the end of a part. */
  predicate EscapesEndParts(gsm: Alphabet, rs: seq<rune>) {
    forall i | 0 <= i < |rs| :: gsm.Supports(rs[i]) && (rs[i] == 0x1B ==> i % 153 == 152 || i == |rs| - 1)
  }

  /** What a caller can check before splitting. */
  lemma LosslessExactly(gsm: Alphabet, text: GoString, coding: byte)
    ensures Lossless(gsm, text, coding) <==>
            ValidString(text) && (coding == GSM7 ==> EscapesEndParts(gsm, RunesOf(text)))
  {
    if coding == GSM7 {
      var rs := RunesOf(text);
      var good, mark := (r: rune) => gsm.Supports(r), (r: rune) => r == 0x1B;
      MarkedPieces(rs, 153, good, mark);
      assert Pieces(text, coding) == Chunks(rs, 153);
      assert forall piece :: Carries(gsm, piece, coding) <==> MarkedLast(piece, good, mark);
      assert EscapesEndParts(gsm, rs) <==> MarkedEnds(rs, 153, good, mark);
    }
  }

  /** The read-back pieces spell the text exactly when it is lossless. */
  lemma ReadBackIsText(gsm: Alphabet, text: GoString, coding: byte)
    requires gsm.Valid()
    ensures StringOf(Flatten(ReadBacks(gsm, Pieces(text, coding), coding))) == text <==> Lossless(gsm, text, coding)
  {
    var pieces := Pieces(text, coding);
    var backs := ReadBacks(gsm, pieces, coding);
    ChunksCover(RunesOf(text), GetMaxLength(coding, true));
    forall i | 0 <= i < |pieces|
      ensures |backs[i]| <= |pieces[i]| && (backs[i] == pieces[i] <==> Carries(gsm, pieces[i], coding))
    {
      ReadBackExactly(gsm, pieces[i], coding);
    }
    SamePieces(backs, pieces);
    RunesOfStringOf(Flatten(backs));
    StringOfRunesOf(text);
    assert backs == pieces <==> forall i | 0 <= i < |pieces| :: Carries(gsm, pieces[i], coding);
  }

  /** The segments of a long message, arriving in any order, are reassembled; everything but
      ID, text, payload and UDHI flag is as in the message.  The text is the original exactly
      when it is lossless, and then the payload is the concatenation of the parts' payloads. */
  lemma SegmentReassemble(gsm: Alphabet, m: Message, arrived: seq<Message>)
    requires gsm.Valid() && IsLong(m) && Segmented(gsm, m).Ok?
    requires multiset(arrived) == multiset(Segmented(gsm, m).value)
    ensures Reassembled(gsm, arrived).Ok?
    ensures var r := Reassembled(gsm, arrived).value;
            && r == Whole(m, PartId(m.id, 1), r.text, r.shortMessage)
            && Ok(r.shortMessage) == EncodeText(gsm, r.text, m.dataCoding)
            && (r.text == m.text <==> Lossless(gsm, m.text, m.dataCoding))
            && (r.text == m.text ==>
                  r.shortMessage == Flatten(Payloads(gsm, Pieces(m.text, m.dataCoding), m.dataCoding)))
  {
    var coding := m.dataCoding;
    var pieces := Pieces(m.text, coding);
    var parts := Segmented(gsm, m).value;
    var backs := ReadBacks(gsm, pieces, coding);
    SegmentedCount(gsm, m);
    forall i | 0 <= i < |pieces|
      ensures DecodeText(gsm, Payloads(gsm, pieces, coding)[i], coding) == Ok(Strings(backs)[i])
    {
      DecodeEncodedRunes(gsm, pieces[i], coding);
    }
    FlattenStrings(backs);
    EncodeTextOfRunes(gsm, Flatten(backs), coding);
    PartsReassemble(gsm, parts, m, Strings(pieces), Payloads(gsm, pieces, coding), Strings(backs), arrived);
    ReadBackIsText(gsm, m.text, coding);
    ChunksCover(RunesOf(m.text), GetMaxLength(coding, true));
    FlattenPayloads(gsm, pieces, coding);
    if StringOf(Flatten(backs)) == m.text {
      RunesOfStringOf(Flatten(backs));
    }
  }

  /** 161 times U+001B. */
  const ESCAPES: seq<rune> := seq(161, i => 0x1B)

  /** GSM 7-bit does not carry every text it can encode: escapes inside a part are lost. */
  lemma EscapesAreLost(gsm: Alphabet, m: Message)
    requires gsm.Valid() && m.dataCoding == GSM7 && m.text == StringOf(ESCAPES)
    ensures ValidateText(gsm, m.text, GSM7).Ok? && Segmented(gsm, m).Ok?
    ensures Reassembled(gsm, Segmented(gsm, m).value).Ok?
    ensures Reassembled(gsm, Segmented(gsm, m).value).value.text != m.text
  {
    RunesOfStringOf(ESCAPES);
    LongIsSplit(m);
    CeilDivStep(161, 153);
    CeilDivStep(8, 153);
    SegmentReassemble(gsm, m, Segmented(gsm, m).value);
    LosslessExactly(gsm, m.text, GSM7);
    assert ESCAPES[0] == 0x1B;
  }
}
