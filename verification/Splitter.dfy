/** DefaultMessageSplitter: a second splitter with its own chunkers and encoder. */
module Splitter {
  import opened GoStrings
  import opened Results
  import opened Gsm7
  import opened Ucs2
  import opened Chunking
  import opened TextEncoding
  import opened Messages
  import opened Reassembly
  import opened RoundTrip
  import opened Segmentation

  const SINGLE_SMS_LIMITS: map<byte, nat> := map[0 := 160, 3 := 160, 8 := 70, 4 := 140]
  const CONCAT_SMS_LIMITS: map<byte, nat> := map[0 := 153, 3 := 153, 8 := 67, 4 := 133]

  function SingleLimit(coding: byte): nat {
    if coding in SINGLE_SMS_LIMITS then SINGLE_SMS_LIMITS[coding] else 160
  }

  function ConcatLimit(coding: byte): (n: nat)
    ensures 67 <= n <= 153 && n < SingleLimit(coding)
  {
    if coding in CONCAT_SMS_LIMITS then CONCAT_SMS_LIMITS[coding] else 153
  }

  method SplitTextByBytes(s: GoString, maxLength: nat) returns (parts: seq<GoString>)
    requires maxLength > 0
    ensures parts == if |s| <= maxLength then [s] else Chunks(s, maxLength)
  {
    if |s| <= maxLength {
      return [s];
    }
    var text := s;
    parts := [];
    while |text| > maxLength
      invariant text != []
      invariant parts + Chunks(text, maxLength) == Chunks(s, maxLength)
    {
      Associate(parts, [text[..maxLength]], Chunks(text[maxLength..], maxLength));
      parts := parts + [text[..maxLength]];
      text := text[maxLength..];
    }
    if |text| > 0 {
      parts := parts + [text];
    }
  }

  method SplitTextByRunes(text: GoString, maxLength: nat) returns (parts: seq<GoString>)
    requires maxLength > 0
    ensures parts == if |RunesOf(text)| <= maxLength then [text] else Strings(Chunks(RunesOf(text), maxLength))
  {
    var runes := RunesOf(text);
    if |runes| <= maxLength {
      return [text];
    }
    parts := [];
    ghost var done: seq<seq<rune>> := [];
    while |runes| > maxLength
      invariant runes != []
      invariant parts == Strings(done)
      invariant done + Chunks(runes, maxLength) == Chunks(RunesOf(text), maxLength)
    {
      Associate(done, [runes[..maxLength]], Chunks(runes[maxLength..], maxLength));
      done := done + [runes[..maxLength]];
      parts := parts + [StringOf(runes[..maxLength])];
      runes := runes[maxLength..];
    }
    if |runes| > 0 {
      done := done + [runes];
      parts := parts + [StringOf(runes)];
    }
  }

  /** The low 16 bits of each rune. */
  function Truncated(rs: seq<rune>): (us: seq<uint16>)
    ensures |us| == |rs|
    ensures forall i | 0 <= i < |rs| :: us[i] == rs[i] as int % 0x1_0000
  {
    seq(|rs|, i requires 0 <= i < |rs| => rs[i] as int % 0x1_0000)
  }

  /** The octets the splitter sends for a part's text. */
  function RawPayload(text: GoString, coding: byte): seq<byte> {
    if coding == UCS2 then BigEndian(Truncated(RunesOf(text))) else text
  }

  method EncodeWithUDH(text: GoString, udh: seq<byte>, coding: byte) returns (bytes: seq<byte>)
    requires |udh| < 0x100
    ensures bytes == [|udh|] + udh + RawPayload(text, coding)
  {
    var textBytes := text;
    if coding == UCS2 {
      textBytes := PutRunes(RunesOf(text));
    }
    var result := new byte[1 + |udh| + |textBytes|];
    result[0] := |udh|;
    forall i | 0 <= i < |udh| {
      result[1 + i] := udh[i];
    }
    forall i | 0 <= i < |textBytes| {
      result[1 + |udh| + i] := textBytes[i];
    }
    bytes := result[..];
    assert bytes == [|udh|] + udh + textBytes;
  }

  /** Two octets per rune: `byte(r >> 8)` and `byte(r & 0xFF)`. */
  method PutRunes(runes: seq<rune>) returns (bytes: seq<byte>)
    ensures bytes == BigEndian(Truncated(runes))
  {
    ghost var units := Truncated(runes);
    var textBytes := new byte[|runes| * 2];
    assert units[0..] == units;
    for i := 0 to |runes|
      invariant textBytes[..2 * i] + BigEndian(units[i..]) == BigEndian(units)
    {
      ghost var before := textBytes[..2 * i];
      var r: int := runes[i];
      OctetsOfRune(r);
      textBytes[2 * i] := r / 0x100 % 0x100;
      textBytes[2 * i + 1] := r % 0x100;
      BigEndianAt(units, i);
      assert textBytes[..2 * (i + 1)] == before + [High(units[i]), Low(units[i])];
      Associate(before, [High(units[i]), Low(units[i])], BigEndian(units[i + 1..]));
    }
    assert textBytes[..2 * |runes|] + [] == textBytes[..];
    bytes := textBytes[..];
  }

  lemma OctetsOfRune(r: nat)
    ensures r / 0x100 % 0x100 == High(r % 0x1_0000) && r % 0x100 == Low(r % 0x1_0000)
  {
    var q, m := r / 0x1_0000, r % 0x1_0000;
    assert r == q * 0x100 * 0x100 + m;
    assert r / 0x100 == q * 0x100 + m / 0x100;
  }

  function TextLength(m: Message): nat {
    if m.dataCoding == UCS2 then |RunesOf(m.text)| else |m.text|
  }

  predicate NeedsSplit(m: Message) {
    TextLength(m) > SingleLimit(m.dataCoding)
  }

  /** The texts of the parts: rune pieces for UCS2, byte pieces for everything else. */
  function SplitTexts(m: Message): seq<GoString> {
    var limit := ConcatLimit(m.dataCoding);
    if m.dataCoding == UCS2 then Strings(Chunks(RunesOf(m.text), limit)) else Chunks(m.text, limit)
  }

  function SplitId(id: GoString, partNum: nat): GoString {
    id + Ascii("_") + Decimal(partNum)
  }

  function RawPayloads(texts: seq<GoString>, coding: byte): (ps: seq<seq<byte>>)
    ensures |ps| == |texts|
    ensures forall i | 0 <= i < |texts| :: ps[i] == RawPayload(texts[i], coding)
  {
    seq(|texts|, i requires 0 <= i < |texts| => RawPayload(texts[i], coding))
  }

  function SplitPart(m: Message, texts: seq<GoString>, i: nat): Message
    requires i < |texts| <= 255
  {
    Part(m, SplitId(m.id, i + 1), texts[i], RawPayload(texts[i], m.dataCoding), |texts|, i + 1)
  }

  function SplitParts(m: Message, texts: seq<GoString>): (parts: seq<Message>)
    requires |texts| <= 255
    ensures |parts| == |texts|
    ensures forall i | 0 <= i < |parts| :: parts[i] == SplitPart(m, texts, i)
  {
    seq(|texts|, i requires 0 <= i < |texts| => SplitPart(m, texts, i))
  }

  function SplitBySplitter(m: Message): Result<seq<Message>> {
    if !NeedsSplit(m) then Ok([m])
    else if |SplitTexts(m)| > 255 then Err(TooManyParts)
    else Ok(SplitParts(m, SplitTexts(m)))
  }

  /** A message that needs splitting is cut into at least two pieces. */
  lemma SplitTextsCover(m: Message)
    requires NeedsSplit(m)
    ensures |SplitTexts(m)| == CeilDiv(TextLength(m), ConcatLimit(m.dataCoding))
    ensures |SplitTexts(m)| >= 2
  {
    var limit := ConcatLimit(m.dataCoding);
    if m.dataCoding == UCS2 {
      ChunksCover(RunesOf(m.text), limit);
    } else {
      ChunksCover(m.text, limit);
    }
    CeilDivStep(TextLength(m), limit);
    CeilDivStep(TextLength(m) - limit, limit);
  }

  /** The pieces concatenate to the text: always when cut between bytes, and when cut between
      runes exactly if the text is valid UTF-8. */
  lemma SplitTextsExactly(m: Message)
    ensures Flatten(SplitTexts(m)) == m.text <==> (m.dataCoding == UCS2 ==> ValidString(m.text))
  {
    var limit := ConcatLimit(m.dataCoding);
    if m.dataCoding == UCS2 {
      RunePiecesExactly(m.text, limit);
    } else {
      ChunksCover(m.text, limit);
    }
  }

  method CutText(message: Message, concatLimit: nat) returns (parts: seq<GoString>)
    requires NeedsSplit(message) && concatLimit == ConcatLimit(message.dataCoding)
    ensures parts == SplitTexts(message)
  {
    if message.dataCoding == UCS2 {
      parts := SplitTextByRunes(message.text, concatLimit);
    } else {
      parts := SplitTextByBytes(message.text, concatLimit);
    }
  }

  method SplitMessage(message: Message) returns (r: Result<seq<Message>>)
    ensures r == SplitBySplitter(message)
  {
    var singleLimit := SingleLimit(message.dataCoding);
    var concatLimit := ConcatLimit(message.dataCoding);
    var textLength := if message.dataCoding == UCS2 then |RunesOf(message.text)| else |message.text|;
    if textLength <= singleLimit {
      return Ok([message]);
    }
    var parts := CutText(message, concatLimit);
    if |parts| > 255 {
      return Err(TooManyParts);
    }
    var refNum := GenerateReferenceNumber(message.id);
    var messages: seq<Message> := [];
    for i := 0 to |parts|
      invariant |messages| == i
      invariant forall k | 0 <= k < i :: messages[k] == SplitPart(message, parts, k)
    {
      var msgCopy := BuildPart(message, parts[i], refNum, |parts|, i + 1);
      messages := messages + [msgCopy];
    }
    assert messages == SplitParts(message, parts);
    r := Ok(messages);
  }

  method BuildPart(message: Message, part: GoString, refNum: uint16, total: byte, partNum: byte)
    returns (msgCopy: Message)
    requires refNum == Reference(message.id)
    ensures msgCopy == Part(message, SplitId(message.id, partNum), part,
                            RawPayload(part, message.dataCoding), total, partNum)
  {
    msgCopy := message.(id := message.id + Ascii("_") + Decimal(partNum), text := part);
    msgCopy := msgCopy.(esmClass := SetUdhi(msgCopy.esmClass));
    var udh := [0x00, 0x03, High(refNum), Low(refNum), total, partNum];
    var encoded := EncodeWithUDH(part, udh, message.dataCoding);
    assert udh == Udh(refNum, total, partNum);
    msgCopy := msgCopy.(shortMessage := encoded);
  }

  // ---------------------------------------------------------------- through the reassembler

  predicate AllBmp(rs: seq<rune>) {
    forall i | 0 <= i < |rs| :: rs[i] < 0x1_0000
  }

  /** Truncation to 16 bits is undone by UTF-16 decoding exactly on BMP text. */
  lemma TruncatedExactly(rs: seq<rune>)
    ensures |Utf16Decode(Truncated(rs))| <= |rs|
    ensures Utf16Decode(Truncated(rs)) == rs <==> AllBmp(rs)
  {
    if Utf16Decode(Truncated(rs)) == rs {
      DecodedWithoutPairs(Truncated(rs));
    }
    if AllBmp(rs) {
      BmpIsUtf16(rs);
      Utf16RoundTrip(rs);
    }
  }

  lemma {:induction false} BmpIsUtf16(rs: seq<rune>)
    requires AllBmp(rs)
    ensures Utf16Encode(rs) == Truncated(rs)
  {
    if rs != [] {
      BmpIsUtf16(rs[1..]);
      assert Truncated(rs) == [Truncated(rs)[0]] + Truncated(rs[1..]);
      assert rs[0] as int % 0x1_0000 == rs[0];
    }
  }

  /** Octets that GSM 7-bit decoding leaves as they are: code and ASCII agree. */
  predicate SameInAscii(gsm: Alphabet, b: byte) {
    b in gsm.basicReverse && gsm.basicReverse[b] == b
  }

  predicate Plain(gsm: Alphabet, bs: seq<byte>) {
    forall i | 0 <= i < |bs| :: SameInAscii(gsm, bs[i]) && (bs[i] == ESC ==> i == |bs| - 1)
  }

  lemma PlainCons(gsm: Alphabet, b: byte, bs: seq<byte>)
    ensures Plain(gsm, [b] + bs) <==> SameInAscii(gsm, b) && (b == ESC ==> bs == []) && Plain(gsm, bs)
  {
    var all := [b] + bs;
    assert forall i | 0 <= i < |bs| :: all[i + 1] == bs[i];
    assert all[0] == b;
    if Plain(gsm, all) {
      forall i | 0 <= i < |bs| ensures SameInAscii(gsm, bs[i]) && (bs[i] == ESC ==> i == |bs| - 1) {
        assert all[i + 1] == bs[i];
      }
    }
  }

  lemma DecodeSame(gsm: Alphabet, bs: seq<byte>)
    requires bs != [] && SameInAscii(gsm, bs[0]) && !(bs[0] == ESC && |bs| > 1) && bs[0] < 0x80
    ensures StringOf(Decode7(gsm, bs)) == [bs[0]] + StringOf(Decode7(gsm, bs[1..]))
  {
    assert Decode7(gsm, bs)[1..] == Decode7(gsm, bs[1..]);
  }

  lemma ConsCancels<T>(c: T, u: seq<T>, v: seq<T>, x: seq<T>, y: seq<T>)
    ensures ([c] + u) + x == ([c] + v) + y ==> u + x == v + y
  {
    assert (([c] + u) + x)[1..] == u + x && (([c] + v) + y)[1..] == v + y;
  }

  lemma FirstDiffers<T>(u: seq<T>, v: seq<T>, x: seq<T>, y: seq<T>)
    requires u != [] && v != [] && u[0] != v[0]
    ensures u + x != v + y
  {
    assert (u + x)[0] == u[0] && (v + y)[0] == v[0];
  }

  /** Octets read as GSM 7-bit spell themselves exactly when plain; otherwise they differ
      from themselves before either ends, whatever follows. */
  lemma {:induction false} PlainExactly(gsm: Alphabet, bs: seq<byte>, x: GoString, y: GoString)
    requires gsm.Valid()
    ensures Plain(gsm, bs) ==> StringOf(Decode7(gsm, bs)) == bs
    ensures !Plain(gsm, bs) ==> StringOf(Decode7(gsm, bs)) + x != bs + y
  {
    if bs != [] {
      assert bs == [bs[0]] + bs[1..];
      PlainCons(gsm, bs[0], bs[1..]);
      if SameInAscii(gsm, bs[0]) && !(bs[0] == ESC && |bs| > 1) {
        PlainExactly(gsm, bs[1..], x, y);
        DecodeSame(gsm, bs);
        ConsCancels(bs[0], StringOf(Decode7(gsm, bs[1..])), bs[1..], x, y);
      } else {
        FirstOctetDiffers(gsm, bs);
        FirstDiffers(StringOf(Decode7(gsm, bs)), bs, x, y);
      }
    }
  }

  lemma FirstOctetDiffers(gsm: Alphabet, bs: seq<byte>)
    requires gsm.Valid() && bs != []
    requires !SameInAscii(gsm, bs[0]) || (bs[0] == ESC && |bs| > 1)
    ensures EncodeRune(Decode7(gsm, bs)[0])[0] != bs[0]
  {
  }

  function ReadAsGsm(gsm: Alphabet, texts: seq<GoString>): (backs: seq<GoString>)
    ensures |backs| == |texts|
    ensures forall i | 0 <= i < |texts| :: backs[i] == StringOf(Decode7(gsm, texts[i]))
  {
    seq(|texts|, i requires 0 <= i < |texts| => StringOf(Decode7(gsm, texts[i])))
  }

  lemma {:induction false} PlainPieces(gsm: Alphabet, texts: seq<GoString>)
    requires gsm.Valid()
    ensures Flatten(ReadAsGsm(gsm, texts)) == Flatten(texts) <==> forall t | t in texts :: Plain(gsm, t)
  {
    if texts != [] {
      var rest := texts[1..];
      assert ReadAsGsm(gsm, texts)[1..] == ReadAsGsm(gsm, rest);
      assert forall t :: t in texts <==> t == texts[0] || t in rest;
      PlainPieces(gsm, rest);
      PlainExactly(gsm, texts[0], Flatten(ReadAsGsm(gsm, rest)), Flatten(rest));
      if Plain(gsm, texts[0]) {
        var x, y := Flatten(ReadAsGsm(gsm, rest)), Flatten(rest);
        assert (texts[0] + x)[|texts[0]|..] == x && (texts[0] + y)[|texts[0]|..] == y;
      }
    }
  }

  /** The texts that survive the splitter and the reassembler. */
  predicate SplitterLossless(gsm: Alphabet, text: GoString, coding: byte) {
    if coding == BINARY then true
    else if coding == UCS2 then ValidString(text) && AllBmp(RunesOf(text))
    else forall i | 0 <= i < |text| ::
      SameInAscii(gsm, text[i]) && (text[i] == ESC ==> i % 153 == 152 || i == |text| - 1)
  }

  function TruncatedBacks(pieces: seq<seq<rune>>): (backs: seq<seq<rune>>)
    ensures |backs| == |pieces|
    ensures forall i | 0 <= i < |pieces| :: backs[i] == Utf16Decode(Truncated(pieces[i]))
  {
    seq(|pieces|, i requires 0 <= i < |pieces| => Utf16Decode(Truncated(pieces[i])))
  }

  /** What the reassembler reads in the parts. */
  function SplitterBacks(gsm: Alphabet, m: Message): (backs: seq<GoString>)
    ensures |backs| == |SplitTexts(m)|
  {
    if m.dataCoding == BINARY then SplitTexts(m)
    else if m.dataCoding == UCS2 then Strings(TruncatedBacks(Chunks(RunesOf(m.text), ConcatLimit(m.dataCoding))))
    else ReadAsGsm(gsm, SplitTexts(m))
  }

  lemma DecodeRawPayload(gsm: Alphabet, m: Message, i: nat)
    requires Supported(m.dataCoding) && i < |SplitTexts(m)|
    ensures DecodeText(gsm, RawPayload(SplitTexts(m)[i], m.dataCoding), m.dataCoding) == Ok(SplitterBacks(gsm, m)[i])
  {
    if m.dataCoding == UCS2 {
      var piece := Chunks(RunesOf(m.text), ConcatLimit(m.dataCoding))[i];
      RunesOfStringOf(piece);
      UnitsBigEndian(Truncated(piece));
    }
  }

  lemma BmpPieces(rs: seq<rune>, pieces: seq<seq<rune>>)
    requires Flatten(pieces) == rs
    ensures Flatten(TruncatedBacks(pieces)) == rs <==> AllBmp(rs)
  {
    forall i | 0 <= i < |pieces|
      ensures |TruncatedBacks(pieces)[i]| <= |pieces[i]|
      ensures TruncatedBacks(pieces)[i] == pieces[i] <==> AllBmp(pieces[i])
    {
      TruncatedExactly(pieces[i]);
    }
    SamePieces(TruncatedBacks(pieces), pieces);
    FlattenBmp(pieces);
    assert TruncatedBacks(pieces) == pieces <==> forall i | 0 <= i < |pieces| :: AllBmp(pieces[i]);
  }

  lemma {:induction false} FlattenBmp(pieces: seq<seq<rune>>)
    ensures AllBmp(Flatten(pieces)) <==> forall i | 0 <= i < |pieces| :: AllBmp(pieces[i])
  {
    if pieces != [] {
      var head, tail := pieces[0], Flatten(pieces[1..]);
      FlattenBmp(pieces[1..]);
      if AllBmp(head + tail) {
        assert forall i | 0 <= i < |head| :: head[i] == (head + tail)[i];
        assert forall i | 0 <= i < |tail| :: tail[i] == (head + tail)[|head| + i];
      }
      if AllBmp(tail) {
        forall i | 1 <= i < |pieces| ensures AllBmp(pieces[i]) { assert pieces[i] == pieces[1..][i - 1]; }
      }
    }
  }

  lemma Ucs2Backs(gsm: Alphabet, m: Message)
    requires gsm.Valid() && m.dataCoding == UCS2
    ensures Flatten(SplitterBacks(gsm, m)) == m.text <==> SplitterLossless(gsm, m.text, UCS2)
    ensures ValidString(Flatten(SplitterBacks(gsm, m)))
  {
    var rs := RunesOf(m.text);
    var pieces := Chunks(rs, ConcatLimit(UCS2));
    ChunksCover(rs, ConcatLimit(UCS2));
    BmpPieces(rs, pieces);
    FlattenStrings(TruncatedBacks(pieces));
    RunesOfStringOf(Flatten(TruncatedBacks(pieces)));
    StringOfRunesOf(m.text);
  }

  lemma GsmBacks(gsm: Alphabet, m: Message)
    requires gsm.Valid() && m.dataCoding == GSM7
    ensures Flatten(SplitterBacks(gsm, m)) == m.text <==> SplitterLossless(gsm, m.text, GSM7)
  {
    ChunksCover(m.text, ConcatLimit(GSM7));
    PlainPieces(gsm, SplitTexts(m));
    PlainChunks(gsm, m.text);
  }

  lemma PlainChunks(gsm: Alphabet, text: GoString)
    ensures (forall t | t in Chunks(text, 153) :: Plain(gsm, t)) <==> SplitterLossless(gsm, text, GSM7)
  {
    var good, mark := (b: byte) => SameInAscii(gsm, b), (b: byte) => b == ESC;
    MarkedPieces(text, 153, good, mark);
    assert forall t :: Plain(gsm, t) <==> MarkedLast(t, good, mark);
    assert SplitterLossless(gsm, text, GSM7) <==> MarkedEnds(text, 153, good, mark);
  }

  lemma BacksExactly(gsm: Alphabet, m: Message)
    requires gsm.Valid() && NeedsSplit(m) && Supported(m.dataCoding)
    ensures Flatten(SplitterBacks(gsm, m)) == m.text <==> SplitterLossless(gsm, m.text, m.dataCoding)
    ensures EncodeText(gsm, Flatten(SplitterBacks(gsm, m)), m.dataCoding).Ok?
  {
    if m.dataCoding == UCS2 {
      Ucs2Backs(gsm, m);
    } else if m.dataCoding == GSM7 {
      GsmBacks(gsm, m);
    } else {
      ChunksCover(m.text, ConcatLimit(m.dataCoding));
    }
  }

  /** The second splitter feeds the same reassembler: its parts, arriving in any order, are
      reassembled exactly when the coding is one the reassembler knows, and the text is the
      original exactly when it is lossless for this splitter. */
  lemma SplitReassemble(gsm: Alphabet, m: Message, arrived: seq<Message>)
    requires gsm.Valid() && NeedsSplit(m) && SplitBySplitter(m).Ok?
    requires multiset(arrived) == multiset(SplitBySplitter(m).value)
    ensures Reassembled(gsm, arrived).Ok? <==> Supported(m.dataCoding)
    ensures Reassembled(gsm, arrived).Ok? ==>
              var r := Reassembled(gsm, arrived).value;
              && r == Whole(m, SplitId(m.id, 1), r.text, r.shortMessage)
              && Ok(r.shortMessage) == EncodeText(gsm, r.text, m.dataCoding)
              && (r.text == m.text <==> SplitterLossless(gsm, m.text, m.dataCoding))
  {
    var texts := SplitTexts(m);
    var parts := SplitBySplitter(m).value;
    var payloads := RawPayloads(texts, m.dataCoding);
    SplitTextsCover(m);
    if Supported(m.dataCoding) {
      forall i | 0 <= i < |parts|
        ensures DecodeText(gsm, payloads[i], m.dataCoding) == Ok(SplitterBacks(gsm, m)[i])
      {
        DecodeRawPayload(gsm, m, i);
      }
      BacksExactly(gsm, m);
      PartsReassemble(gsm, parts, m, texts, payloads, SplitterBacks(gsm, m), arrived);
    } else {
      UnsupportedFails(gsm, m, texts, payloads, parts);
      OrderIndependent(gsm, parts, arrived);
    }
  }

  lemma UnsupportedFails(gsm: Alphabet, m: Message, texts: seq<GoString>, payloads: seq<seq<byte>>, parts: seq<Message>)
    requires gsm.Valid() && !Supported(m.dataCoding) && ArePartsOf(parts, m, texts, payloads)
    ensures Reassembled(gsm, parts).Err?
  {
    PartsAreNumbered(parts, m, texts, payloads);
    NumberedAreComplete(parts, Reference(m.id), payloads);
    ReassembledExactly(gsm, parts);
    assert parts[0] in parts;
  }

  lemma LossyIsChanged(gsm: Alphabet, m: Message)
    requires gsm.Valid() && Supported(m.dataCoding) && NeedsSplit(m) && TextLength(m) <= 200
    requires !SplitterLossless(gsm, m.text, m.dataCoding)
    ensures SplitBySplitter(m).Ok? && Reassembled(gsm, SplitBySplitter(m).value).Ok?
    ensures Reassembled(gsm, SplitBySplitter(m).value).value.text != m.text
  {
    SplitTextsCover(m);
    FewPieces(TextLength(m), ConcatLimit(m.dataCoding));
    SplitReassemble(gsm, m, SplitBySplitter(m).value);
  }

  lemma FewPieces(n: nat, size: nat)
    requires n <= 200 && 67 <= size
    ensures CeilDiv(n, size) <= 3
  {
    CeilDivStep(n, size);
    if n > size {
      CeilDivStep(n - size, size);
      if n - size > size {
        CeilDivStep(n - size - size, size);
      }
    }
  }

  /** The same character n times. */
  function Repeated(s: GoString, n: nat): GoString {
    if n == 0 then [] else s + Repeated(s, n - 1)
  }

  lemma {:induction false} RepeatedLength(s: GoString, n: nat)
    ensures |Repeated(s, n)| == n * |s|
  {
    if n > 0 {
      RepeatedLength(s, n - 1);
      assert n * |s| == (n - 1) * |s| + |s|;
    }
  }

  function Copies(r: rune, n: nat): (rs: seq<rune>)
    ensures |rs| == n && forall i | 0 <= i < n :: rs[i] == r
  {
    seq(n, i => r)
  }

  lemma {:induction false} RepeatedRunes(r: rune, n: nat)
    ensures RunesOf(Repeated(EncodeRune(r), n)) == Copies(r, n)
    ensures ValidString(Repeated(EncodeRune(r), n))
  {
    if n > 0 {
      var rest := Repeated(EncodeRune(r), n - 1);
      RepeatedRunes(r, n - 1);
      RunesOfStep(r, rest);
      assert [r] + Copies(r, n - 1) == Copies(r, n);
    }
  }

  const ACUTE_E: rune := 0xE9
  const FACE: rune := 0x1F600

  lemma AcuteIsInTheAlphabet()
    ensures ACUTE_E in ALPHABET
  {
    CodeHasRune(0x05);
  }

  lemma AcuteText(gsm: Alphabet, text: GoString, n: nat)
    requires gsm.Valid() && gsm.Supports(ACUTE_E) && n > 0 && text == Repeated(EncodeRune(ACUTE_E), n)
    ensures |text| == 2 * n && ValidateText(gsm, text, GSM7).Ok? && !SplitterLossless(gsm, text, GSM7)
  {
    RepeatedRunes(ACUTE_E, n);
    RepeatedLength(EncodeRune(ACUTE_E), n);
    assert EncodeRune(ACUTE_E) == [Lead(0xC0, 0xE9 / 0x40), Tail(0xE9, 1)];
    assert text[0] == 0xC3;
    assert !SameInAscii(gsm, text[0]);
  }

  lemma FaceText(gsm: Alphabet, text: GoString, n: nat)
    requires n > 0 && text == Repeated(EncodeRune(FACE), n)
    ensures |RunesOf(text)| == n && ValidateText(gsm, text, UCS2).Ok? && !SplitterLossless(gsm, text, UCS2)
  {
    RepeatedRunes(FACE, n);
    assert RunesOf(text)[0] in RunesOf(text);
  }

  lemma AcutesAreChanged(gsm: Alphabet, m: Message)
    requires gsm.Valid() && gsm.Supports(ACUTE_E) && m.dataCoding == GSM7
    requires m.text == Repeated(EncodeRune(ACUTE_E), 81)
    ensures ValidateText(gsm, m.text, GSM7).Ok?
    ensures SplitBySplitter(m).Ok? && Reassembled(gsm, SplitBySplitter(m).value).Ok?
    ensures Reassembled(gsm, SplitBySplitter(m).value).value.text != m.text
  {
    AcuteText(gsm, m.text, 81);
    LossyIsChanged(gsm, m);
  }

  /** The default coding is not carried: a text of 81 times U+00E9, which GSM 7-bit has, comes back
      changed. */
  lemma DefaultCodingIsLossy(gsm: Alphabet, m: Message)
    requires gsm.Valid() && gsm.basic == ALPHABET && m.dataCoding == GSM7
    requires m.text == Repeated(EncodeRune(ACUTE_E), 81)
    ensures ValidateText(gsm, m.text, GSM7).Ok?
    ensures SplitBySplitter(m).Ok? && Reassembled(gsm, SplitBySplitter(m).value).Ok?
    ensures Reassembled(gsm, SplitBySplitter(m).value).value.text != m.text
  {
    AcuteIsInTheAlphabet();
    AcutesAreChanged(gsm, m);
  }

  /** UCS2 is not carried outside the BMP: 71 times U+1F600 comes back changed. */
  lemma SupplementaryIsTruncated(gsm: Alphabet, m: Message)
    requires gsm.Valid() && m.dataCoding == UCS2 && m.text == Repeated(EncodeRune(FACE), 71)
    ensures ValidateText(gsm, m.text, UCS2).Ok?
    ensures SplitBySplitter(m).Ok? && Reassembled(gsm, SplitBySplitter(m).value).Ok?
    ensures Reassembled(gsm, SplitBySplitter(m).value).value.text != m.text
  {
    FaceText(gsm, m.text, 71);
    LossyIsChanged(gsm, m);
  }

  // ---------------------------------------------------------------- the parts, field by field

  /** The limits in numbers; the length is in runes for coding 8 and in bytes otherwise. */
  lemma SplitterLimits(m: Message)
    ensures SingleLimit(m.dataCoding) == if m.dataCoding == 8 then 70 else if m.dataCoding == 4 then 140 else 160
    ensures ConcatLimit(m.dataCoding) == if m.dataCoding == 8 then 67 else if m.dataCoding == 4 then 133 else 153
    ensures TextLength(m) == if m.dataCoding == 8 then |RunesOf(m.text)| else |m.text|
  {
  }

  /** A short text gives the message itself, and more than 255 pieces are refused. */
  lemma SplitExactly(m: Message)
    ensures var length, limit := TextLength(m), SingleLimit(m.dataCoding);
            var count := CeilDiv(length, ConcatLimit(m.dataCoding));
            && (length <= limit ==> SplitBySplitter(m) == Ok([m]))
            && (length > limit && count > 255 ==> SplitBySplitter(m) == Err(TooManyParts))
            && (length > limit && count <= 255 ==>
                  SplitBySplitter(m).Ok? && |SplitBySplitter(m).value| == count)
  {
    if NeedsSplit(m) {
      SplitTextsCover(m);
    }
  }

  /** The octets behind the header: the text's bytes or, in coding 8, two octets of every rune's low half. */
  predicate IsRaw(payload: seq<byte>, text: GoString, coding: byte) {
    if coding == 8 then
      && |payload| == 2 * |RunesOf(text)|
      && forall k | 0 <= k < |RunesOf(text)| ::
           payload[2 * k] == RunesOf(text)[k] as int / 256 % 256 && payload[2 * k + 1] == RunesOf(text)[k] as int % 256
    else payload == text
  }

  lemma {:induction false} UnitAt(units: seq<uint16>, k: nat)
    requires k < |units|
    ensures |BigEndian(units)| == 2 * |units|
    ensures BigEndian(units)[2 * k] == units[k] / 256 && BigEndian(units)[2 * k + 1] == units[k] % 256
  {
    if k > 0 {
      UnitAt(units[1..], k - 1);
    }
  }

  lemma RawOctets(text: GoString, coding: byte)
    ensures IsRaw(RawPayload(text, coding), text, coding)
  {
    if coding == UCS2 {
      var rs := RunesOf(text);
      var units := Truncated(rs);
      forall k | 0 <= k < |rs|
        ensures |BigEndian(units)| == 2 * |units|
        ensures BigEndian(units)[2 * k] == rs[k] as int / 256 % 256 && BigEndian(units)[2 * k + 1] == rs[k] as int % 256
      {
        UnitAt(units, k);
        OctetsOfRune(rs[k]);
      }
    }
  }

  /** Every part of a split message is the message with an ID and a header of its own, and behind the
      header the part's text as it stands. */
  lemma SplitPartsExactly(m: Message)
    requires NeedsSplit(m) && SplitBySplitter(m).Ok?
    ensures var parts := SplitBySplitter(m).value;
            && (forall i | 0 <= i < |parts| :: IsPart(parts[i], m, Ascii("_"), i, |parts|))
            && (forall i, j | 0 <= i < j < |parts| :: parts[i].id != parts[j].id)
            && (forall i | 0 <= i < |parts| :: IsRaw(parts[i].shortMessage[7..], parts[i].text, m.dataCoding))
  {
    var parts, texts := SplitBySplitter(m).value, SplitTexts(m);
    forall i | 0 <= i < |parts|
      ensures IsPart(parts[i], m, Ascii("_"), i, |parts|)
      ensures IsRaw(parts[i].shortMessage[7..], parts[i].text, m.dataCoding)
    {
      PartIsPart(m, Ascii("_"), texts[i], RawPayload(texts[i], m.dataCoding), |texts|, i);
      RawOctets(texts[i], m.dataCoding);
    }
    PartsHaveOwnIds(parts, m, Ascii("_"));
  }

  /** The texts of the parts spell the text, with the same exception as before, and all but the last are full. */
  lemma SplitPartTexts(m: Message)
    requires NeedsSplit(m) && SplitBySplitter(m).Ok?
    ensures var parts, limit := SplitBySplitter(m).value, ConcatLimit(m.dataCoding);
            && (Flatten(TextsOf(parts)) == m.text <==> (m.dataCoding == 8 ==> ValidString(m.text)))
            && (m.dataCoding != 8 ==> forall i | 0 <= i < |parts| - 1 :: |parts[i].text| == limit)
            && (m.dataCoding == 8 ==> forall i | 0 <= i < |parts| - 1 :: |RunesOf(parts[i].text)| == limit)
  {
    var parts, limit := SplitBySplitter(m).value, ConcatLimit(m.dataCoding);
    assert TextsOf(parts) == SplitTexts(m);
    SplitTextsExactly(m);
    if m.dataCoding == UCS2 {
      var pieces := Chunks(RunesOf(m.text), limit);
      ChunksCover(RunesOf(m.text), limit);
      forall i | 0 <= i < |parts| ensures RunesOf(parts[i].text) == pieces[i] {
        RunesOfStringOf(pieces[i]);
      }
    } else {
      ChunksCover(m.text, limit);
    }
  }
}
