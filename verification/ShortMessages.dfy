/** submit_sm and deliver_sm bodies: 94 fixed octets, the short message, the TLVs. */
module ShortMessages {
  import opened GoStrings
  import opened Results
  import opened Ucs2
  import opened Fields

  datatype ShortMessageBody = ShortMessageBody(
    serviceType: GoString, sourceAddrTON: byte, sourceAddrNPI: byte, sourceAddr: GoString,
    destAddrTON: byte, destAddrNPI: byte, destAddr: GoString,
    esmClass: byte, protocolID: byte, priorityFlag: byte,
    scheduleDeliveryTime: GoString, validityPeriod: GoString,
    registeredDelivery: byte, replaceIfPresentFlag: byte, dataCoding: byte, smDefaultMsgID: byte,
    smLength: byte, shortMessage: seq<byte>, optionalParams: seq<OptionalParameter>)

  const SERVICE_TYPE_WIDTH: nat := 6
  const ADDRESS_WIDTH: nat := 21
  const TIME_WIDTH: nat := 17
  const FIXED_LENGTH: nat := 94

  /** The code demands one octet more than the fixed part has. */
  const MIN_LENGTH: nat := 95

  function Addresses(s: ShortMessageBody): (b: seq<byte>)
    ensures |b| == 52
  {
    Pad(s.serviceType, SERVICE_TYPE_WIDTH)
    + [s.sourceAddrTON, s.sourceAddrNPI] + Pad(s.sourceAddr, ADDRESS_WIDTH)
    + [s.destAddrTON, s.destAddrNPI] + Pad(s.destAddr, ADDRESS_WIDTH)
  }

  function Times(s: ShortMessageBody): (b: seq<byte>)
    ensures |b| == 42
  {
    [s.esmClass, s.protocolID, s.priorityFlag]
    + Pad(s.scheduleDeliveryTime, TIME_WIDTH) + Pad(s.validityPeriod, TIME_WIDTH)
    + [s.registeredDelivery, s.replaceIfPresentFlag, s.dataCoding, s.smDefaultMsgID, s.smLength]
  }

  function Marshalled(s: ShortMessageBody): seq<byte> {
    Addresses(s) + Times(s) + s.shortMessage + MarshalParams(s.optionalParams)
  }

  /** The fixed part of the data, with no message and no TLVs yet. */
  function FixedPart(data: seq<byte>): ShortMessageBody
    requires |data| >= FIXED_LENGTH
  {
    ShortMessageBody(
      TrimRight(data[0..6]), data[6], data[7], TrimRight(data[8..29]),
      data[29], data[30], TrimRight(data[31..52]),
      data[52], data[53], data[54],
      TrimRight(data[55..72]), TrimRight(data[72..89]),
      data[89], data[90], data[91], data[92], data[93], [], [])
  }

  /** The message and the TLVs that follow the fixed part. */
  function WithVariablePart(fixed: ShortMessageBody, rest: seq<byte>): Result<ShortMessageBody> {
    if |rest| < fixed.smLength then Err(InsufficientData)
    else Ok(fixed.(shortMessage := rest[..fixed.smLength], optionalParams := ParseParams(rest[fixed.smLength..])))
  }

  function Unmarshalled(data: seq<byte>): Result<ShortMessageBody> {
    if |data| < MIN_LENGTH then Err(InsufficientData)
    else WithVariablePart(FixedPart(data), data[FIXED_LENGTH..])
  }

  /** The strings and lengths a body can hold on the wire. */
  predicate FitsBody(s: ShortMessageBody) {
    && FitsField(s.serviceType, SERVICE_TYPE_WIDTH)
    && FitsField(s.sourceAddr, ADDRESS_WIDTH) && FitsField(s.destAddr, ADDRESS_WIDTH)
    && FitsField(s.scheduleDeliveryTime, TIME_WIDTH) && FitsField(s.validityPeriod, TIME_WIDTH)
    && s.smLength == |s.shortMessage|
    && FitsParams(s.optionalParams)
  }

  predicate HasContent(s: ShortMessageBody) {
    s.shortMessage != [] || s.optionalParams != []
  }

  lemma AddressSlices(s: ShortMessageBody, rest: seq<byte>)
    ensures var d := Addresses(s) + rest;
            && d[0..6] == Pad(s.serviceType, SERVICE_TYPE_WIDTH)
            && d[6] == s.sourceAddrTON && d[7] == s.sourceAddrNPI
            && d[8..29] == Pad(s.sourceAddr, ADDRESS_WIDTH)
            && d[29] == s.destAddrTON && d[30] == s.destAddrNPI
            && d[31..52] == Pad(s.destAddr, ADDRESS_WIDTH)
            && d[52..] == rest
  {
  }

  lemma TimeSlices(s: ShortMessageBody, rest: seq<byte>)
    ensures var d := Times(s) + rest;
            && d[0] == s.esmClass && d[1] == s.protocolID && d[2] == s.priorityFlag
            && d[3..20] == Pad(s.scheduleDeliveryTime, TIME_WIDTH)
            && d[20..37] == Pad(s.validityPeriod, TIME_WIDTH)
            && d[37] == s.registeredDelivery && d[38] == s.replaceIfPresentFlag
            && d[39] == s.dataCoding && d[40] == s.smDefaultMsgID && d[41] == s.smLength
            && d[42..] == rest
  {
  }

  /** The fixed part read back: every octet as written, every string as its field keeps it. */
  lemma FixedPartOfMarshalled(s: ShortMessageBody, rest: seq<byte>)
    ensures var d := Addresses(s) + Times(s) + rest;
            && FixedPart(d) == s.(
                 serviceType := TrimRight(Pad(s.serviceType, SERVICE_TYPE_WIDTH)),
                 sourceAddr := TrimRight(Pad(s.sourceAddr, ADDRESS_WIDTH)),
                 destAddr := TrimRight(Pad(s.destAddr, ADDRESS_WIDTH)),
                 scheduleDeliveryTime := TrimRight(Pad(s.scheduleDeliveryTime, TIME_WIDTH)),
                 validityPeriod := TrimRight(Pad(s.validityPeriod, TIME_WIDTH)),
                 shortMessage := [], optionalParams := [])
            && d[FIXED_LENGTH..] == rest
  {
    var d := Addresses(s) + Times(s) + rest;
    assert d == Addresses(s) + (Times(s) + rest);
    AddressSlices(s, Times(s) + rest);
    TimeSlices(s, rest);
    var e := d[52..];
    assert e == Times(s) + rest;
    assert d[55..72] == e[3..20] && d[72..89] == e[20..37] && d[94..] == e[42..];
    assert d[52] == e[0] && d[53] == e[1] && d[54] == e[2];
    assert d[89] == e[37] && d[90] == e[38] && d[91] == e[39] && d[92] == e[40] && d[93] == e[41];
  }

  lemma TrimPads(s: ShortMessageBody)
    requires FitsBody(s)
    ensures TrimRight(Pad(s.serviceType, SERVICE_TYPE_WIDTH)) == s.serviceType
    ensures TrimRight(Pad(s.sourceAddr, ADDRESS_WIDTH)) == s.sourceAddr
    ensures TrimRight(Pad(s.destAddr, ADDRESS_WIDTH)) == s.destAddr
    ensures TrimRight(Pad(s.scheduleDeliveryTime, TIME_WIDTH)) == s.scheduleDeliveryTime
    ensures TrimRight(Pad(s.validityPeriod, TIME_WIDTH)) == s.validityPeriod
  {
    TrimPad(s.serviceType, SERVICE_TYPE_WIDTH);
    TrimPad(s.sourceAddr, ADDRESS_WIDTH);
    TrimPad(s.destAddr, ADDRESS_WIDTH);
    TrimPad(s.scheduleDeliveryTime, TIME_WIDTH);
    TrimPad(s.validityPeriod, TIME_WIDTH);
  }

  /** Whatever is decoded fits. */
  lemma DecodedFits(data: seq<byte>)
    requires Unmarshalled(data).Ok?
    ensures FitsBody(Unmarshalled(data).value)
  {
  }

  lemma VariablePart(fixed: ShortMessageBody, message: seq<byte>, ps: seq<OptionalParameter>)
    requires fixed.smLength == |message| && FitsParams(ps)
    ensures WithVariablePart(fixed, message + MarshalParams(ps)) ==
            Ok(fixed.(shortMessage := message, optionalParams := ps))
  {
    var rest := message + MarshalParams(ps);
    assert rest[..|message|] == message && rest[|message|..] == MarshalParams(ps);
    ParseMarshalled(ps);
  }

  lemma FittingRoundTrips(s: ShortMessageBody)
    requires FitsBody(s) && HasContent(s)
    ensures Unmarshalled(Marshalled(s)) == Ok(s)
  {
    var rest := s.shortMessage + MarshalParams(s.optionalParams);
    Associate(Addresses(s) + Times(s), s.shortMessage, MarshalParams(s.optionalParams));
    FixedPartOfMarshalled(s, rest);
    TrimPads(s);
    VariablePart(s.(shortMessage := [], optionalParams := []), s.shortMessage, s.optionalParams);
    assert |Marshalled(s)| == FIXED_LENGTH + |rest|;
  }

  /** A body round-trips exactly when its fields fit and it has a message or a TLV. */
  lemma BodyRoundTrip(s: ShortMessageBody)
    ensures Unmarshalled(Marshalled(s)) == Ok(s) <==> FitsBody(s) && HasContent(s)
  {
    if FitsBody(s) && HasContent(s) {
      FittingRoundTrips(s);
    }
    if Unmarshalled(Marshalled(s)) == Ok(s) {
      DecodedFits(Marshalled(s));
    }
  }

  const NOTHING: ShortMessageBody := ShortMessageBody(
    [], 0, 0, [], 0, 0, [], 0, 0, 0, [], [], 0, 0, 0, 0, 0, [], [])

  /** A body of nothing but defaults fits, is written, and is refused when read. */
  lemma NothingIsRefused()
    ensures FitsBody(NOTHING) && |Marshalled(NOTHING)| == FIXED_LENGTH
    ensures Unmarshalled(Marshalled(NOTHING)) == Err(InsufficientData)
  {
    assert MarshalParams(NOTHING.optionalParams) == [];
  }

  lemma JoinSlices(data: seq<byte>, i: nat, j: nat, k: nat)
    requires i <= j <= k <= |data|
    ensures data[i..j] + data[j..k] == data[i..k]
  {
  }

  lemma AddressesOfSlices(s: ShortMessageBody, data: seq<byte>)
    requires |data| >= 52
    requires Pad(s.serviceType, SERVICE_TYPE_WIDTH) == data[0..6]
    requires [s.sourceAddrTON, s.sourceAddrNPI] == data[6..8] && Pad(s.sourceAddr, ADDRESS_WIDTH) == data[8..29]
    requires [s.destAddrTON, s.destAddrNPI] == data[29..31] && Pad(s.destAddr, ADDRESS_WIDTH) == data[31..52]
    ensures Addresses(s) == data[..52]
  {
    JoinSlices(data, 0, 6, 8);
    JoinSlices(data, 0, 8, 29);
    JoinSlices(data, 0, 29, 31);
    JoinSlices(data, 0, 31, 52);
  }

  lemma AddressesRemarshalled(data: seq<byte>)
    requires |data| >= FIXED_LENGTH
    ensures Addresses(FixedPart(data)) == data[..52]
  {
    PadTrim(data[0..6]);
    PadTrim(data[8..29]);
    PadTrim(data[31..52]);
    AddressesOfSlices(FixedPart(data), data);
  }

  lemma TimesOfSlices(s: ShortMessageBody, data: seq<byte>)
    requires |data| >= FIXED_LENGTH
    requires [s.esmClass, s.protocolID, s.priorityFlag] == data[52..55]
    requires Pad(s.scheduleDeliveryTime, TIME_WIDTH) == data[55..72] && Pad(s.validityPeriod, TIME_WIDTH) == data[72..89]
    requires [s.registeredDelivery, s.replaceIfPresentFlag, s.dataCoding, s.smDefaultMsgID, s.smLength] == data[89..94]
    ensures Times(s) == data[52..94]
  {
    JoinSlices(data, 52, 55, 72);
    JoinSlices(data, 52, 72, 89);
    JoinSlices(data, 52, 89, 94);
  }

  lemma TimesRemarshalled(data: seq<byte>)
    requires |data| >= FIXED_LENGTH
    ensures Times(FixedPart(data)) == data[52..94]
  {
    PadTrim(data[55..72]);
    PadTrim(data[72..89]);
    TimesOfSlices(FixedPart(data), data);
  }

  lemma FixedPartRemarshalled(data: seq<byte>)
    requires |data| >= FIXED_LENGTH
    ensures Addresses(FixedPart(data)) + Times(FixedPart(data)) == data[..FIXED_LENGTH]
  {
    AddressesRemarshalled(data);
    TimesRemarshalled(data);
    assert data[..52] + data[52..94] == data[..94];
  }

  /** The variable part is the message, the TLVs and an incomplete tail. */
  lemma VariablePartSplits(fixed: ShortMessageBody, rest: seq<byte>, s: ShortMessageBody) returns (tail: seq<byte>)
    requires WithVariablePart(fixed, rest) == Ok(s)
    ensures Addresses(s) == Addresses(fixed) && Times(s) == Times(fixed)
    ensures rest == s.shortMessage + (MarshalParams(s.optionalParams) + tail) && !StartsWithParam(tail)
  {
    tail := ParamsAndTail(rest[s.smLength..]);
    assert rest == rest[..s.smLength] + rest[s.smLength..];
  }

  lemma Recombine(fixed: seq<byte>, message: seq<byte>, params: seq<byte>, tail: seq<byte>)
    ensures fixed + (message + (params + tail)) == (fixed + message + params) + tail
  {
  }

  /** Re-encoding what was decoded gives the input back, up to an incomplete TLV at its end,
      and decoding that again changes nothing (unless there is neither message nor TLV, when
      the 95-octet check refuses it). */
  lemma Normalises(data: seq<byte>) returns (tail: seq<byte>)
    requires Unmarshalled(data).Ok?
    ensures var s := Unmarshalled(data).value;
            && data == Marshalled(s) + tail
            && !StartsWithParam(tail)
            && Unmarshalled(Marshalled(s)) == if HasContent(s) then Ok(s) else Err(InsufficientData)
  {
    var s := Unmarshalled(data).value;
    FixedPartRemarshalled(data);
    tail := VariablePartSplits(FixedPart(data), data[FIXED_LENGTH..], s);
    assert data == data[..FIXED_LENGTH] + data[FIXED_LENGTH..];
    Recombine(Addresses(s) + Times(s), s.shortMessage, MarshalParams(s.optionalParams), tail);
    ReadsAgain(data, s);
  }

  lemma ReadsAgain(data: seq<byte>, s: ShortMessageBody)
    requires Unmarshalled(data) == Ok(s)
    ensures Unmarshalled(Marshalled(s)) == if HasContent(s) then Ok(s) else Err(InsufficientData)
  {
    DecodedFits(data);
    BodyRoundTrip(s);
  }

  // ---------------------------------------------------------------- the code

  class ShortMessagePdu {
    var serviceType: GoString
    var sourceAddrTON: byte
    var sourceAddrNPI: byte
    var sourceAddr: GoString
    var destAddrTON: byte
    var destAddrNPI: byte
    var destAddr: GoString
    var esmClass: byte
    var protocolID: byte
    var priorityFlag: byte
    var scheduleDeliveryTime: GoString
    var validityPeriod: GoString
    var registeredDelivery: byte
    var replaceIfPresentFlag: byte
    var dataCoding: byte
    var smDefaultMsgID: byte
    var smLength: byte
    var shortMessage: seq<byte>
    var optionalParams: seq<OptionalParameter>

    function View(): ShortMessageBody
      reads this
    {
      ShortMessageBody(
        serviceType, sourceAddrTON, sourceAddrNPI, sourceAddr, destAddrTON, destAddrNPI, destAddr,
        esmClass, protocolID, priorityFlag, scheduleDeliveryTime, validityPeriod,
        registeredDelivery, replaceIfPresentFlag, dataCoding, smDefaultMsgID,
        smLength, shortMessage, optionalParams)
    }

    constructor (s: ShortMessageBody)
      ensures View() == s
    {
      serviceType, sourceAddrTON, sourceAddrNPI, sourceAddr := s.serviceType, s.sourceAddrTON, s.sourceAddrNPI, s.sourceAddr;
      destAddrTON, destAddrNPI, destAddr := s.destAddrTON, s.destAddrNPI, s.destAddr;
      esmClass, protocolID, priorityFlag := s.esmClass, s.protocolID, s.priorityFlag;
      scheduleDeliveryTime, validityPeriod := s.scheduleDeliveryTime, s.validityPeriod;
      registeredDelivery, replaceIfPresentFlag := s.registeredDelivery, s.replaceIfPresentFlag;
      dataCoding, smDefaultMsgID, smLength := s.dataCoding, s.smDefaultMsgID, s.smLength;
      shortMessage, optionalParams := s.shortMessage, s.optionalParams;
    }

    method Marshal() returns (buf: seq<byte>)
      ensures buf == Marshalled(View())
    {
      buf := Pad(serviceType, SERVICE_TYPE_WIDTH);
      buf := buf + [sourceAddrTON, sourceAddrNPI];
      buf := buf + Pad(sourceAddr, ADDRESS_WIDTH);
      buf := buf + [destAddrTON, destAddrNPI];
      buf := buf + Pad(destAddr, ADDRESS_WIDTH);
      assert buf == Addresses(View());
      var times := [esmClass, protocolID, priorityFlag];
      times := times + Pad(scheduleDeliveryTime, TIME_WIDTH);
      times := times + Pad(validityPeriod, TIME_WIDTH);
      times := times + [registeredDelivery, replaceIfPresentFlag, dataCoding, smDefaultMsgID, smLength];
      assert times == Times(View());
      buf := buf + times + shortMessage;
      ghost var head := buf;
      for i := 0 to |optionalParams|
        invariant buf + MarshalParams(optionalParams[i..]) == head + MarshalParams(optionalParams)
      {
        var param := optionalParams[i];
        assert optionalParams[i..][1..] == optionalParams[i + 1..];
        Associate(buf, MarshalParam(param), MarshalParams(optionalParams[i + 1..]));
        buf := buf + ([High(param.tag), Low(param.tag), High(param.length), Low(param.length)] + param.value);
      }
      assert buf + [] == buf;
    }

    method Unmarshal(data: seq<byte>) returns (r: Result<()>)
      modifies this
      ensures r == if Unmarshalled(data).Ok? then Ok(()) else Err(InsufficientData)
      ensures r.Ok? ==> View() == Unmarshalled(data).value
      ensures r.Err? ==> shortMessage == old(shortMessage) && optionalParams == old(optionalParams)
    {
      if |data| < MIN_LENGTH {
        return Err(InsufficientData);
      }
      UnmarshalFixed(data);
      var offset := FIXED_LENGTH;
      if |data| < offset + smLength {
        return Err(InsufficientData);
      }
      assert data[offset..offset + smLength] == data[FIXED_LENGTH..][..smLength];
      shortMessage := data[offset..offset + smLength];
      offset := offset + smLength;
      assert data[offset..] == data[FIXED_LENGTH..][smLength..];
      optionalParams := ParseLoop(data, offset);
      r := Ok(());
    }

    method UnmarshalFixed(data: seq<byte>)
      requires |data| >= MIN_LENGTH
      modifies this
      ensures View() == FixedPart(data).(shortMessage := old(shortMessage), optionalParams := old(optionalParams))
    {
      ghost var fixed := FixedPart(data);
      var offset := UnmarshalAddresses(data, 0, fixed);
      UnmarshalTimes(data, offset, fixed);
    }

    method UnmarshalAddresses(data: seq<byte>, start: nat, ghost fixed: ShortMessageBody) returns (offset: nat)
      requires start == 0 && |data| >= MIN_LENGTH && fixed == FixedPart(data)
      modifies `serviceType, `sourceAddrTON, `sourceAddrNPI, `sourceAddr, `destAddrTON, `destAddrNPI, `destAddr
      ensures offset == 52
      ensures serviceType == fixed.serviceType
      ensures sourceAddrTON == fixed.sourceAddrTON && sourceAddrNPI == fixed.sourceAddrNPI
      ensures sourceAddr == fixed.sourceAddr
      ensures destAddrTON == fixed.destAddrTON && destAddrNPI == fixed.destAddrNPI
      ensures destAddr == fixed.destAddr
    {
      offset := start;
      serviceType := TrimRight(data[offset..offset + SERVICE_TYPE_WIDTH]);
      offset := offset + SERVICE_TYPE_WIDTH;
      sourceAddrTON := data[offset];
      offset := offset + 1;
      sourceAddrNPI := data[offset];
      offset := offset + 1;
      sourceAddr := TrimRight(data[offset..offset + ADDRESS_WIDTH]);
      offset := offset + ADDRESS_WIDTH;
      destAddrTON := data[offset];
      offset := offset + 1;
      destAddrNPI := data[offset];
      offset := offset + 1;
      destAddr := TrimRight(data[offset..offset + ADDRESS_WIDTH]);
      offset := offset + ADDRESS_WIDTH;
    }

    method UnmarshalTimes(data: seq<byte>, start: nat, ghost fixed: ShortMessageBody)
      requires start == 52 && |data| >= MIN_LENGTH && fixed == FixedPart(data)
      modifies `esmClass, `protocolID, `priorityFlag, `scheduleDeliveryTime, `validityPeriod
      modifies `registeredDelivery, `replaceIfPresentFlag, `dataCoding, `smDefaultMsgID, `smLength
      ensures esmClass == fixed.esmClass && protocolID == fixed.protocolID && priorityFlag == fixed.priorityFlag
      ensures scheduleDeliveryTime == fixed.scheduleDeliveryTime && validityPeriod == fixed.validityPeriod
      ensures registeredDelivery == fixed.registeredDelivery
      ensures replaceIfPresentFlag == fixed.replaceIfPresentFlag
      ensures dataCoding == fixed.dataCoding && smDefaultMsgID == fixed.smDefaultMsgID && smLength == fixed.smLength
    {
      var offset := start;
      esmClass := data[offset];
      offset := offset + 1;
      protocolID := data[offset];
      offset := offset + 1;
      priorityFlag := data[offset];
      offset := offset + 1;
      scheduleDeliveryTime := TrimRight(data[offset..offset + TIME_WIDTH]);
      offset := offset + TIME_WIDTH;
      validityPeriod := TrimRight(data[offset..offset + TIME_WIDTH]);
      offset := offset + TIME_WIDTH;
      registeredDelivery := data[offset];
      offset := offset + 1;
      replaceIfPresentFlag := data[offset];
      offset := offset + 1;
      dataCoding := data[offset];
      offset := offset + 1;
      smDefaultMsgID := data[offset];
      offset := offset + 1;
      smLength := data[offset];
    }
  }

  /** The TLV loop: stops at the end, at a torn header, or at a torn value. */
  method ParseLoop(data: seq<byte>, start: nat) returns (params: seq<OptionalParameter>)
    requires start <= |data|
    ensures params == ParseParams(data[start..])
  {
    params := [];
    var offset := start;
    while offset < |data|
      invariant start <= offset <= |data|
      invariant params + ParseParams(data[offset..]) == ParseParams(data[start..])
    {
      ghost var rest := data[offset..];
      if |data| < offset + 4 {
        break;
      }
      var tag := FromOctets(data[offset], data[offset + 1]);
      var length := FromOctets(data[offset + 2], data[offset + 3]);
      if |data| < offset + 4 + length {
        break;
      }
      var param := OptionalParameter(tag, length, data[offset + 4..offset + 4 + length]);
      ParamAt(data, offset, param);
      Associate(params, [param], ParseParams(data[offset + 4 + length..]));
      params := params + [param];
      offset := offset + 4 + length;
    }
    assert ParseParams(data[offset..]) == [];
    assert params + [] == params;
  }

  lemma ParamAt(data: seq<byte>, offset: nat, p: OptionalParameter)
    requires offset + 4 <= |data| && offset + 4 + p.length <= |data|
    requires p == OptionalParameter(FromOctets(data[offset], data[offset + 1]),
                                    FromOctets(data[offset + 2], data[offset + 3]),
                                    data[offset + 4..offset + 4 + p.length])
    ensures ParseParams(data[offset..]) == [p] + ParseParams(data[offset + 4 + p.length..])
  {
    var rest := data[offset..];
    assert rest[0] == data[offset] && rest[1] == data[offset + 1];
    assert rest[2] == data[offset + 2] && rest[3] == data[offset + 3];
    assert rest[4..4 + p.length] == p.value;
    assert rest[4 + p.length..] == data[offset + 4 + p.length..];
  }

  // ---------------------------------------------------------------- where everything stands

  /** The places of the fields in a marshalled body (sections 4.4.1 and 4.6.1 of SMPP 3.4, but with
      strings padded to their full width). */
  lemma BodyOctets(s: ShortMessageBody)
    ensures var d := Marshalled(s);
            && |d| >= 94
            && d[0..6] == Pad(s.serviceType, 6)
            && d[6] == s.sourceAddrTON && d[7] == s.sourceAddrNPI && d[8..29] == Pad(s.sourceAddr, 21)
            && d[29] == s.destAddrTON && d[30] == s.destAddrNPI && d[31..52] == Pad(s.destAddr, 21)
            && d[52] == s.esmClass && d[53] == s.protocolID && d[54] == s.priorityFlag
            && d[55..72] == Pad(s.scheduleDeliveryTime, 17) && d[72..89] == Pad(s.validityPeriod, 17)
            && d[89] == s.registeredDelivery && d[90] == s.replaceIfPresentFlag
            && d[91] == s.dataCoding && d[92] == s.smDefaultMsgID && d[93] == s.smLength
            && d[94..] == s.shortMessage + MarshalParams(s.optionalParams)
  {
    var rest := s.shortMessage + MarshalParams(s.optionalParams);
    var d := Marshalled(s);
    assert d == Addresses(s) + (Times(s) + rest);
    AddressSlices(s, Times(s) + rest);
    TimeSlices(s, rest);
    var e := d[52..];
    assert d[55..72] == e[3..20] && d[72..89] == e[20..37] && d[94..] == e[42..];
    assert d[52] == e[0] && d[53] == e[1] && d[54] == e[2];
    assert d[89] == e[37] && d[90] == e[38] && d[91] == e[39] && d[92] == e[40] && d[93] == e[41];
  }
}
