/** The text encoder: codings, length limits and the rune splitter. */
module TextEncoding {
  import opened GoStrings
  import opened Results
  import opened Gsm7
  import opened Ucs2
  import opened Chunking

  const GSM7: byte := 0x00
  const BINARY: byte := 0x04
  const UCS2: byte := 0x08

  predicate Supported(coding: byte) {
    coding == GSM7 || coding == BINARY || coding == UCS2
  }

  function EncodeText(gsm: Alphabet, text: GoString, coding: byte): Result<seq<byte>>
    requires gsm.Valid()
  {
    if coding == GSM7 then Ok(Encode7(gsm, RunesOf(text)))
    else if coding == UCS2 then
      if ValidString(text) then Ok(Ucs2Encode(RunesOf(text))) else Err(InvalidUtf8)
    else if coding == BINARY then Ok(text)
    else Err(UnsupportedCoding)
  }

  function DecodeText(gsm: Alphabet, data: seq<byte>, coding: byte): Result<GoString> {
    if coding == GSM7 then Ok(StringOf(Decode7(gsm, data)))
    else if coding == UCS2 then
      if |data| % 2 != 0 then Err(OddLength) else Ok(StringOf(Ucs2Decode(data)))
    else if coding == BINARY then Ok(data)
    else Err(UnsupportedCoding)
  }

  lemma Encode7At(gsm: Alphabet, rs: seq<rune>, i: nat)
    requires gsm.Valid() && i < |rs|
    ensures Encode7(gsm, rs[i..]) == EncodeRune7(gsm, rs[i]) + Encode7(gsm, rs[i + 1..])
  {
    assert rs[i..][1..] == rs[i + 1..];
  }

  method EncodeGSM7Bit(gsm: Alphabet, text: GoString) returns (result: seq<byte>)
    requires gsm.Valid()
    ensures result == Encode7(gsm, RunesOf(text))
  {
    result := [];
    var rs := RunesOf(text);
    for i := 0 to |rs|
      invariant result + Encode7(gsm, rs[i..]) == Encode7(gsm, rs)
    {
      var r := rs[i];
      Encode7At(gsm, rs, i);
      Associate(result, EncodeRune7(gsm, r), Encode7(gsm, rs[i + 1..]));
      if r in gsm.basic {
        result := result + [gsm.basic[r]];
      } else if r in gsm.extended {
        result := result + [ESC, gsm.extended[r]];
      } else {
        result := result + [gsm.basic[QUESTION_MARK]];
      }
    }
  }

  /** The decoder's step at index i, read off the rest of the octets. */
  lemma Decode7At(gsm: Alphabet, data: seq<byte>, i: nat)
    requires i < |data|
    ensures data[i] == ESC && i + 1 < |data| ==>
              Decode7(gsm, data[i..]) ==
              [if data[i + 1] in gsm.extendedReverse then gsm.extendedReverse[data[i + 1]] else SPACE]
              + Decode7(gsm, data[i + 2..])
    ensures !(data[i] == ESC && i + 1 < |data|) ==>
              Decode7(gsm, data[i..]) ==
              [if data[i] in gsm.basicReverse then gsm.basicReverse[data[i]] else SPACE]
              + Decode7(gsm, data[i + 1..])
  {
    assert data[i..][1..] == data[i + 1..];
    if i + 1 < |data| {
      assert data[i..][2..] == data[i + 2..];
    }
  }

  method DecodeGSM7Bit(gsm: Alphabet, data: seq<byte>) returns (text: GoString)
    ensures text == StringOf(Decode7(gsm, data))
  {
    var result: seq<rune> := [];
    var i := 0;
    assert data[0..] == data;
    while i < |data|
      invariant 0 <= i <= |data|
      invariant result + Decode7(gsm, data[i..]) == Decode7(gsm, data)
    {
      var b := data[i];
      var r := SPACE;
      Decode7At(gsm, data, i);
      if b == ESC && i + 1 < |data| {
        var next := data[i + 1];
        if next in gsm.extendedReverse {
          r := gsm.extendedReverse[next];
        }
        i := i + 1;
      } else if b in gsm.basicReverse {
        r := gsm.basicReverse[b];
      }
      Associate(result, [r], Decode7(gsm, data[i + 1..]));
      result := result + [r];
      i := i + 1;
    }
    assert result + [] == result;
    text := StringOf(result);
  }

  lemma BigEndianAt(codes: seq<uint16>, i: nat)
    requires i < |codes|
    ensures BigEndian(codes[i..]) == [High(codes[i]), Low(codes[i])] + BigEndian(codes[i + 1..])
  {
    assert codes[i..][1..] == codes[i + 1..];
  }

  /** The octet loop of the UCS2 encoder. */
  method PutCodes(codes: seq<uint16>) returns (bytes: seq<byte>)
    ensures bytes == BigEndian(codes)
  {
    var result := new byte[2 * |codes|];
    assert codes[0..] == codes;
    for i := 0 to |codes|
      invariant result[..2 * i] + BigEndian(codes[i..]) == BigEndian(codes)
    {
      ghost var before := result[..2 * i];
      BigEndianAt(codes, i);
      result[2 * i] := High(codes[i]);
      result[2 * i + 1] := Low(codes[i]);
      assert result[..2 * (i + 1)] == before + [High(codes[i]), Low(codes[i])];
      Associate(before, [High(codes[i]), Low(codes[i])], BigEndian(codes[i + 1..]));
    }
    assert result[..2 * |codes|] + [] == result[..];
    bytes := result[..];
  }

  method EncodeUCS2(text: GoString) returns (r: Result<seq<byte>>)
    ensures r == if ValidString(text) then Ok(Ucs2Encode(RunesOf(text))) else Err(InvalidUtf8)
  {
    if !ValidString(text) {
      return Err(InvalidUtf8);
    }
    var bytes := PutCodes(Utf16Encode(RunesOf(text)));
    r := Ok(bytes);
  }

  lemma UnitsAt(data: seq<byte>, i: nat)
    requires |data| % 2 == 0 && i % 2 == 0 && i < |data|
    ensures Units(data[i..]) == [FromOctets(data[i], data[i + 1])] + Units(data[i + 2..])
  {
    assert data[i..][2..] == data[i + 2..];
  }

  method DecodeUCS2(data: seq<byte>) returns (r: Result<GoString>)
    ensures r == if |data| % 2 != 0 then Err(OddLength) else Ok(StringOf(Ucs2Decode(data)))
  {
    if |data| % 2 != 0 {
      return Err(OddLength);
    }
    var codes := new uint16[|data| / 2];
    var i := 0;
    assert data[0..] == data;
    while i < |data|
      invariant 0 <= i <= |data| && i % 2 == 0
      invariant codes[..i / 2] + Units(data[i..]) == Units(data)
    {
      ghost var before := codes[..i / 2];
      codes[i / 2] := FromOctets(data[i], data[i + 1]);
      UnitsAt(data, i);
      Associate(before, [FromOctets(data[i], data[i + 1])], Units(data[i + 2..]));
      assert codes[..(i + 2) / 2] == before + [FromOctets(data[i], data[i + 1])];
      i := i + 2;
    }
    assert codes[..|data| / 2] + [] == codes[..];
    r := Ok(StringOf(Utf16Decode(codes[..])));
  }

  method Encode(gsm: Alphabet, text: GoString, coding: byte) returns (r: Result<seq<byte>>)
    requires gsm.Valid()
    ensures r == EncodeText(gsm, text, coding)
  {
    if coding == GSM7 {
      var bs := EncodeGSM7Bit(gsm, text);
      return Ok(bs);
    } else if coding == UCS2 {
      r := EncodeUCS2(text);
    } else if coding == BINARY {
      return Ok(text);
    } else {
      return Err(UnsupportedCoding);
    }
  }

  method Decode(gsm: Alphabet, data: seq<byte>, coding: byte) returns (r: Result<GoString>)
    ensures r == DecodeText(gsm, data, coding)
  {
    if coding == GSM7 {
      var text := DecodeGSM7Bit(gsm, data);
      return Ok(text);
    } else if coding == UCS2 {
      r := DecodeUCS2(data);
    } else if coding == BINARY {
      return Ok(data);
    } else {
      return Err(UnsupportedCoding);
    }
  }

  function GetMaxLength(coding: byte, hasUdh: bool): (n: nat)
    ensures 67 <= n <= 160
  {
    if coding == GSM7 then if hasUdh then 153 else 160
    else if coding == BINARY then if hasUdh then 134 else 140
    else if coding == UCS2 then if hasUdh then 67 else 70
    else 160
  }

  function EstimatePartCount(text: GoString, coding: byte): nat {
    var length := |RunesOf(text)|;
    if length <= GetMaxLength(coding, false) then 1
    else CeilDiv(length, GetMaxLength(coding, true))
  }

  function Strings(pieces: seq<seq<rune>>): (texts: seq<GoString>)
    ensures |texts| == |pieces|
    ensures forall i | 0 <= i < |pieces| :: texts[i] == StringOf(pieces[i])
  {
    seq(|pieces|, i requires 0 <= i < |pieces| => StringOf(pieces[i]))
  }

  /** The rune pieces of a text that is split. */
  function Pieces(text: GoString, coding: byte): seq<seq<rune>> {
    Chunks(RunesOf(text), GetMaxLength(coding, true))
  }

  function SplitText(text: GoString, coding: byte): seq<GoString> {
    if |text| <= GetMaxLength(coding, true) then [text] else Strings(Pieces(text, coding))
  }

  method SplitMessage(text: GoString, coding: byte) returns (parts: seq<GoString>)
    ensures parts == SplitText(text, coding)
  {
    var maxLength := GetMaxLength(coding, true);
    if |text| <= maxLength {
      return [text];
    }
    parts := [];
    var runes := RunesOf(text);
    ghost var done: seq<seq<rune>> := [];
    while |runes| > 0
      invariant parts == Strings(done)
      invariant done + Chunks(runes, maxLength) == Pieces(text, coding)
    {
      var part;
      if |runes| <= maxLength {
        part, runes := runes, [];
      } else {
        part, runes := runes[..maxLength], runes[maxLength..];
      }
      Associate(done, [part], Chunks(runes, maxLength));
      done := done + [part];
      parts := parts + [StringOf(part)];
    }
    assert done + [] == done;
  }

  lemma {:induction false} FlattenStrings(pieces: seq<seq<rune>>)
    ensures Flatten(Strings(pieces)) == StringOf(Flatten(pieces))
  {
    if pieces != [] {
      assert Strings(pieces)[1..] == Strings(pieces[1..]);
      FlattenStrings(pieces[1..]);
      StringOfConcat(pieces[0], Flatten(pieces[1..]));
    }
  }

  /** Rune pieces concatenate to the text exactly when it is valid UTF-8. */
  lemma RunePiecesExactly(text: GoString, limit: nat)
    requires limit > 0
    ensures Flatten(Strings(Chunks(RunesOf(text), limit))) == text <==> ValidString(text)
  {
    ChunksCover(RunesOf(text), limit);
    FlattenStrings(Chunks(RunesOf(text), limit));
    StringOfRunesOf(text);
  }

  /** SplitMessage loses nothing exactly when it does not cut, or the text is valid UTF-8. */
  lemma SplitTextExactly(text: GoString, coding: byte)
    ensures Flatten(SplitText(text, coding)) == text <==>
            |text| <= GetMaxLength(coding, true) || ValidString(text)
  {
    if |text| <= GetMaxLength(coding, true) {
      assert Flatten([text]) == text + Flatten([]);
    } else {
      RunePiecesExactly(text, GetMaxLength(coding, true));
    }
  }

  /** A long text that starts with an octet that is no UTF-8 comes out of the splitter changed. */
  lemma InvalidTextIsChanged(text: GoString, coding: byte)
    requires |text| > 160 && text[0] == 0xFF
    ensures Flatten(SplitText(text, coding)) != text
  {
    assert DecodeRune(text) == Decoded(RUNE_ERROR, 1);
    SplitTextExactly(text, coding);
  }

  /** Whether every character of the text can be sent in the coding. */
  function ValidateText(gsm: Alphabet, text: GoString, coding: byte): Result<()> {
    if coding == GSM7 then
      if forall r | r in RunesOf(text) :: gsm.Supports(r) then Ok(()) else Err(UnsupportedCharacter)
    else if coding == UCS2 && !ValidString(text) then Err(InvalidUtf8)
    else Ok(())
  }

  method CheckText(gsm: Alphabet, text: GoString, coding: byte) returns (r: Result<()>)
    ensures r == ValidateText(gsm, text, coding)
  {
    if coding == GSM7 {
      var runes := RunesOf(text);
      for i := 0 to |runes|
        invariant forall k | 0 <= k < i :: gsm.Supports(runes[k])
      {
        if runes[i] !in gsm.basic && runes[i] !in gsm.extended {
          assert runes[i] in runes && !gsm.Supports(runes[i]);
          return Err(UnsupportedCharacter);
        }
      }
    } else if coding == UCS2 && !ValidString(text) {
      return Err(InvalidUtf8);
    }
    r := Ok(());
  }

  /** The octets of a text given as runes. */
  function EncodeRunes(gsm: Alphabet, rs: seq<rune>, coding: byte): seq<byte>
    requires gsm.Valid()
  {
    if coding == GSM7 then Encode7(gsm, rs)
    else if coding == UCS2 then Ucs2Encode(rs)
    else StringOf(rs)
  }

  lemma EncodeTextOfRunes(gsm: Alphabet, rs: seq<rune>, coding: byte)
    requires gsm.Valid() && Supported(coding)
    ensures EncodeText(gsm, StringOf(rs), coding) == Ok(EncodeRunes(gsm, rs, coding))
  {
    RunesOfStringOf(rs);
  }

  /** Encoding is compatible with cutting the text between runes, in every coding. */
  lemma EncodeRunesConcat(gsm: Alphabet, a: seq<rune>, b: seq<rune>, coding: byte)
    requires gsm.Valid()
    ensures EncodeRunes(gsm, a + b, coding) == EncodeRunes(gsm, a, coding) + EncodeRunes(gsm, b, coding)
  {
    Encode7Concat(gsm, a, b);
    Ucs2RoundTrip(a, b);
    StringOfConcat(a, b);
  }

  /** What decoding the octets of a text gives back. */
  function ReadBack(gsm: Alphabet, rs: seq<rune>, coding: byte): seq<rune>
    requires gsm.Valid()
  {
    if coding == GSM7 then Decode7(gsm, Encode7(gsm, rs)) else rs
  }

  lemma Ucs2ReadBack(rs: seq<rune>)
    ensures |Ucs2Encode(rs)| % 2 == 0 && Ucs2Decode(Ucs2Encode(rs)) == rs
  {
    UnitsBigEndian(Utf16Encode(rs));
    Utf16RoundTrip(rs);
  }

  lemma DecodeEncodedRunes(gsm: Alphabet, rs: seq<rune>, coding: byte)
    requires gsm.Valid() && Supported(coding)
    ensures DecodeText(gsm, EncodeRunes(gsm, rs, coding), coding) == Ok(StringOf(ReadBack(gsm, rs, coding)))
  {
    if coding == UCS2 {
      Ucs2ReadBack(rs);
    }
  }

  lemma ReadBackExactly(gsm: Alphabet, rs: seq<rune>, coding: byte)
    requires gsm.Valid()
    ensures |ReadBack(gsm, rs, coding)| <= |rs|
    ensures ReadBack(gsm, rs, coding) == rs <==> Carries(gsm, rs, coding)
  {
    if coding == GSM7 {
      Decode7Encode7(gsm, rs);
      DecodedLength(gsm, rs);
    }
  }

  /** The rune sequences that survive a coding. */
  predicate Carries(gsm: Alphabet, rs: seq<rune>, coding: byte) {
    coding == GSM7 ==> Representable(gsm, rs)
  }

  /** A single message has 140 octets, and one that leaves six for a header 134, of seven, eight or
      sixteen bits a character. */
  lemma MaxLengthExactly(coding: byte, hasUdh: bool)
    ensures var bits := (if hasUdh then 134 else 140) * 8;
            && (coding == 0 ==> GetMaxLength(coding, hasUdh) == bits / 7)
            && (coding == 4 ==> GetMaxLength(coding, hasUdh) == bits / 8)
            && (coding == 8 ==> GetMaxLength(coding, hasUdh) == bits / 16)
            && (coding !in {0, 4, 8} ==> GetMaxLength(coding, hasUdh) == 160)
  {
  }

  /** Encoding fails exactly in unknown codings and for invalid UTF-8 in UCS2; decoding exactly in
      unknown codings and for an odd number of octets in UCS2. */
  lemma CodingErrorsExactly(gsm: Alphabet, text: GoString, data: seq<byte>, coding: byte)
    requires gsm.Valid()
    ensures EncodeText(gsm, text, coding) == Err(UnsupportedCoding) <==> coding !in {0, 4, 8}
    ensures EncodeText(gsm, text, coding) == Err(InvalidUtf8) <==> coding == 8 && !ValidString(text)
    ensures DecodeText(gsm, data, coding) == Err(UnsupportedCoding) <==> coding !in {0, 4, 8}
    ensures DecodeText(gsm, data, coding) == Err(OddLength) <==> coding == 8 && |data| % 2 == 1
    ensures coding == 4 ==> EncodeText(gsm, text, coding) == Ok(text) && DecodeText(gsm, data, coding) == Ok(data)
  {
  }
}
