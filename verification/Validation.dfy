/** Message validation, and what it guarantees to the default splitter. */
module Validation {
  import opened GoStrings
  import opened Results
  import opened Gsm7
  import opened TextEncoding
  import opened Messages
  import opened Splitter

  predicate ValidTonNpi(ton: byte, npi: byte) {
    if ton == 0x00 || ton == 0x05 then npi == 0x00
    else if ton == 0x01 || ton == 0x02 then npi == 0x01 || npi == 0x00
    else true
  }

  function ValidateMessage(gsm: Alphabet, m: Message): Result<()> {
    if m.sourceAddr.addr == [] then Err(EmptySource)
    else if m.destAddr.addr == [] then Err(EmptyDestination)
    else
      var _ :- ValidateText(gsm, m.text, m.dataCoding);
      var maxLength := GetMaxLength(m.dataCoding, HasUdhi(m.esmClass));
      var length := |RunesOf(m.text)|;
      if length > maxLength && (m.dataCoding == 0 || m.dataCoding == 1) && length > maxLength * 10 then Err(TooLong)
      else if length > maxLength && m.dataCoding != 0 && m.dataCoding != 1 then Err(TooLong)
      else if !ValidTonNpi(m.sourceAddr.ton, m.sourceAddr.npi) then Err(InvalidTonNpi)
      else if !ValidTonNpi(m.destAddr.ton, m.destAddr.npi) then Err(InvalidTonNpi)
      else Ok(())
  }

  lemma {:induction false} BytesPerRune(text: GoString)
    ensures |text| <= 4 * |RunesOf(text)|
  {
    if text != [] {
      BytesPerRune(text[DecodeRune(text).size..]);
    }
  }

  lemma AcceptedLength(gsm: Alphabet, m: Message)
    requires ValidateMessage(gsm, m).Ok?
    ensures |RunesOf(m.text)| <= 1600
    ensures m.dataCoding == UCS2 ==> |RunesOf(m.text)| <= 70
    ensures m.dataCoding == BINARY ==> |RunesOf(m.text)| <= 140
  {
  }

  /** Every accepted message, in any coding, is split without error into at most 42 parts,
      so the one-octet total and part number never truncate. */
  lemma AcceptedIsSplit(gsm: Alphabet, m: Message)
    requires ValidateMessage(gsm, m).Ok?
    ensures SplitBySplitter(m).Ok? && 1 <= |SplitBySplitter(m).value| <= 42
  {
    AcceptedLength(gsm, m);
    BytesPerRune(m.text);
    if NeedsSplit(m) {
      PartCountBound(m);
    }
  }

  lemma PartCountBound(m: Message)
    requires NeedsSplit(m) && m.dataCoding != UCS2 && |m.text| <= 6400
    requires m.dataCoding == BINARY ==> |m.text| <= 560
    ensures SplitBySplitter(m).Ok? && 1 <= |SplitBySplitter(m).value| <= 42
  {
    SplitTextsCover(m);
  }

  lemma {:induction false} FourByteRunes(rs: seq<rune>)
    requires forall i | 0 <= i < |rs| :: rs[i] >= 0x1_0000
    ensures |StringOf(rs)| == 4 * |rs|
  {
    if rs != [] {
      FourByteRunes(rs[1..]);
    }
  }

  /** The bound is reached by 1600 supplementary characters in data coding 1. */
  lemma FortyTwoPartsAreReached(gsm: Alphabet, m: Message, rs: seq<rune>)
    requires m.sourceAddr.addr != [] && m.destAddr.addr != []
    requires m.sourceAddr.ton == 0x03 && m.destAddr.ton == 0x03
    requires m.dataCoding == 1 && m.text == StringOf(rs)
    requires |rs| == 1600 && forall i | 0 <= i < |rs| :: rs[i] >= 0x1_0000
    ensures ValidateMessage(gsm, m).Ok? && SplitBySplitter(m).Ok? && |SplitBySplitter(m).value| == 42
  {
    FourByteRunes(rs);
    RunesOfStringOf(rs);
    LongestAccepted(gsm, m);
    MostParts(m);
  }

  lemma LongestAccepted(gsm: Alphabet, m: Message)
    requires m.sourceAddr.addr != [] && m.destAddr.addr != []
    requires m.sourceAddr.ton == 0x03 && m.destAddr.ton == 0x03
    requires m.dataCoding == 1 && |RunesOf(m.text)| == 1600
    ensures ValidateMessage(gsm, m).Ok?
  {
  }

  lemma MostParts(m: Message)
    requires m.dataCoding == 1 && |m.text| == 6400
    ensures SplitBySplitter(m).Ok? && |SplitBySplitter(m).value| == 42
  {
    SplitTextsCover(m);
  }

  // ---------------------------------------------------------------- exactly what is accepted

  /** The most characters that pass: ten parts in codings 0 and 1, one otherwise. */
  function MostCharacters(coding: byte, hasUdh: bool): nat {
    if coding == 0 then if hasUdh then 1530 else 1600
    else if coding == 1 then 1600
    else if coding == 4 then if hasUdh then 134 else 140
    else if coding == 8 then if hasUdh then 67 else 70
    else 160
  }

  lemma AcceptedExactly(gsm: Alphabet, m: Message)
    ensures ValidateMessage(gsm, m).Ok? <==>
            && m.sourceAddr.addr != [] && m.destAddr.addr != []
            && ValidateText(gsm, m.text, m.dataCoding).Ok?
            && |RunesOf(m.text)| <= MostCharacters(m.dataCoding, m.esmClass % 128 >= 64)
            && (forall a | a in [m.sourceAddr, m.destAddr] ::
                  (a.ton in {0, 5} ==> a.npi == 0) && (a.ton in {1, 2} ==> a.npi in {0, 1}))
  {
    UdhiBit(m.esmClass);
    var both := [m.sourceAddr, m.destAddr];
    assert both[0] == m.sourceAddr && both[1] == m.destAddr;
  }
}
