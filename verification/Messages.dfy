/** Messages, the user-data-header flag, and the reference number of a message. */
module Messages {
  import opened GoStrings
  import opened Ucs2

  datatype Option<+T> = None | Some(value: T)

  datatype Address = Address(ton: byte, npi: byte, addr: GoString)

  datatype MessageStatus =
    | Submitted | Enroute | Delivered | Expired | Deleted
    | Undeliverable | Accepted | Unknown | Rejected | Split

  datatype Message = Message(
    id: GoString, sessionID: GoString, sourceAddr: Address, destAddr: Address,
    shortMessage: seq<byte>, dataCoding: byte, esmClass: byte, registeredDelivery: byte,
    validityPeriod: GoString, scheduleDeliveryTime: GoString, serviceType: GoString,
    protocolID: byte, priorityFlag: byte, status: MessageStatus,
    submitTime: int, doneTime: Option<int>, subDate: GoString, doneDate: GoString,
    stat: GoString, err: GoString, text: GoString)

  const UDHI: byte := 0x40

  predicate HasUdhi(esmClass: byte) {
    esmClass / UDHI % 2 == 1
  }

  function SetUdhi(esmClass: byte): (e: byte)
    ensures HasUdhi(e)
    ensures HasUdhi(esmClass) ==> e == esmClass
  {
    if HasUdhi(esmClass) then esmClass else esmClass + UDHI
  }

  function ClearUdhi(esmClass: byte): (e: byte)
    ensures !HasUdhi(e)
    ensures e == esmClass || SetUdhi(e) == esmClass
  {
    if HasUdhi(esmClass) then esmClass - UDHI else esmClass
  }

  lemma ClearSetUdhi(esmClass: byte)
    ensures ClearUdhi(SetUdhi(esmClass)) == ClearUdhi(esmClass)
  {
  }

  /** The base-31 polynomial of the ID's bytes, in unbounded arithmetic. */
  function Polynomial(id: GoString): nat {
    if id == [] then 0 else Polynomial(id[..|id| - 1]) * 31 + id[|id| - 1]
  }

  function Reference(id: GoString): uint16 {
    Polynomial(id) % 0x1_0000
  }

  /** The 32-bit hash wraps around, but its low half is that of the unbounded polynomial. */
  method GenerateReferenceNumber(messageID: GoString) returns (refNum: uint16)
    ensures refNum == Reference(messageID)
  {
    var hash: uint32 := 0;
    for i := 0 to |messageID|
      invariant hash == Wrap32(Polynomial(messageID[..i]))
    {
      assert messageID[..i + 1][..i] == messageID[..i];
      HashStep(Polynomial(messageID[..i]), messageID[i]);
      hash := Wrap32(hash * 31 + messageID[i]);
    }
    assert messageID[..|messageID|] == messageID;
    LowHalf(Polynomial(messageID));
    refNum := hash % 0x1_0000;
  }

  function Wrap32(n: nat): uint32 {
    n % 0x1_0000_0000
  }

  lemma Wrap32Add(k: nat, n: nat)
    ensures Wrap32(k * 0x1_0000_0000 + n) == Wrap32(n)
  {
  }

  lemma HashStep(p: nat, b: nat)
    ensures Wrap32(Wrap32(p) * 31 + b) == Wrap32(p * 31 + b)
  {
    Wrap32Add(p / 0x1_0000_0000 * 31, Wrap32(p) * 31 + b);
  }

  lemma LowHalf(p: nat)
    ensures Wrap32(p) % 0x1_0000 == p % 0x1_0000
  {
    var q := p / 0x1_0000_0000;
    assert p == q * 0x1_0000 * 0x1_0000 + Wrap32(p);
  }

  /** The header of one part: IEI, IEDL, 2-octet reference, total, part number. */
  function Udh(refNum: uint16, totalParts: byte, partNum: byte): (udh: seq<byte>)
    ensures |udh| == 6
  {
    [0x00, 0x03, High(refNum), Low(refNum), totalParts, partNum]
  }

  method CreateMultipartUDH(refNum: uint16, totalParts: byte, partNum: byte) returns (bytes: seq<byte>)
    ensures bytes == Udh(refNum, totalParts, partNum)
  {
    var udh := new byte[6];
    udh[0] := 0x00;
    udh[1] := 0x03;
    udh[2] := High(refNum);
    udh[3] := Low(refNum);
    udh[4] := totalParts;
    udh[5] := partNum;
    bytes := udh[..];
  }

  /** A part of m: its own ID and text, the header-prefixed payload, the UDHI flag set, and
      everything else as in m. */
  function Part(m: Message, id: GoString, text: GoString, payload: seq<byte>, total: byte, partNum: byte): Message {
    m.(id := id, text := text, esmClass := SetUdhi(m.esmClass),
       shortMessage := [6] + Udh(Reference(m.id), total, partNum) + payload)
  }

  /** The message that reassembling parts of m should give. */
  function Whole(m: Message, id: GoString, text: GoString, encoded: seq<byte>): Message {
    m.(id := id, text := text, esmClass := ClearUdhi(m.esmClass), shortMessage := encoded)
  }

  // ---------------------------------------------------------------- in numbers

  /** The flag is the bit worth 64. */
  lemma UdhiBit(esmClass: byte)
    ensures HasUdhi(esmClass) <==> esmClass % 128 >= 64
    ensures SetUdhi(esmClass) == if esmClass % 128 >= 64 then esmClass else esmClass + 64
    ensures ClearUdhi(esmClass) == if esmClass % 128 >= 64 then esmClass - 64 else esmClass
  {
  }

  /** One more octet of the ID: times 31 and plus it, in 16 bits. */
  lemma ReferenceStep(id: GoString, b: byte)
    ensures Reference([]) == 0
    ensures Reference(id + [b]) == (Reference(id) * 31 + b) % 65536
  {
    var p := Polynomial(id);
    assert (id + [b])[..|id|] == id;
    assert p * 31 + b == p / 65536 * 31 * 65536 + (p % 65536 * 31 + b);
    ModAdds(p / 65536 * 31, p % 65536 * 31 + b);
  }

  lemma ModAdds(k: nat, n: nat)
    ensures (k * 65536 + n) % 65536 == n % 65536
  {
  }

  lemma UdhOctets(refNum: uint16, totalParts: byte, partNum: byte)
    ensures Udh(refNum, totalParts, partNum) == [0, 3, refNum / 256, refNum % 256, totalParts, partNum]
  {
  }

  /** What reassembly changes of a message, and that it changes nothing else. */
  lemma WholeExactly(m: Message, id: GoString, text: GoString, encoded: seq<byte>)
    ensures var r := Whole(m, id, text, encoded);
            && r.id == id && r.text == text && r.shortMessage == encoded
            && r.esmClass == (if m.esmClass % 128 >= 64 then m.esmClass - 64 else m.esmClass)
            && r.(id := m.id, text := m.text, shortMessage := m.shortMessage, esmClass := m.esmClass) == m
  {
    UdhiBit(m.esmClass);
  }
}
