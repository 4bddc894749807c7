/** SMSProcessor.ConcatenateSMSParts. */
module Reassembly {
  import opened GoStrings
  import opened Results
  import opened Gsm7
  import opened Ucs2
  import opened TextEncoding
  import opened Messages
  import opened Sorting

  datatype PartInfo = PartInfo(message: Message, partNum: byte, totalParts: byte, refNum: uint16)

  /** The header of one part.  `1+udhLength` is 8-bit arithmetic, so a first octet of 255
      makes the slice run from 1 to 0, which panics. */
  function ParsePart(part: Message): Result<PartInfo> {
    var sm := part.shortMessage;
    if !HasUdhi(part.esmClass) then Err(MissingUdhi)
    else if |sm| < 7 then Err(TooShortForUdh)
    else if sm[0] >= |sm| then Err(InvalidUdhLength)
    else if sm[0] == 255 then Err(SliceOutOfRange)
    else if sm[0] < 6 || sm[1] != 0x00 || sm[2] != 0x03 then Err(InvalidUdh)
    else Ok(PartInfo(part, sm[6], sm[5], FromOctets(sm[3], sm[4])))
  }

  /** The octets after the header. */
  function Payload(part: Message): seq<byte>
    requires ParsePart(part).Ok?
  {
    part.shortMessage[1 + part.shortMessage[0]..]
  }

  predicate SameMessage(a: PartInfo, b: PartInfo) {
    a.totalParts == b.totalParts && a.refNum == b.refNum
  }

  function ScanParts(parts: seq<Message>): Result<seq<PartInfo>> {
    if parts == [] then Ok([])
    else
      var infos :- ScanParts(parts[..|parts| - 1]);
      var info :- ParsePart(parts[|parts| - 1]);
      if infos != [] && info.totalParts != infos[0].totalParts then Err(InconsistentTotal)
      else if infos != [] && info.refNum != infos[0].refNum then Err(InconsistentReference)
      else Ok(infos + [info])
  }

  predicate HasNumber(infos: seq<PartInfo>, k: nat) {
    exists i :: 0 <= i < |infos| && infos[i].partNum == k
  }

  /** Every number from 1 to the number of parts is there. */
  predicate Complete(infos: seq<PartInfo>) {
    forall k | 1 <= k <= |infos| :: HasNumber(infos, k)
  }

  function Numbered(infos: seq<PartInfo>, k: nat): (info: PartInfo)
    requires HasNumber(infos, k)
    ensures info in infos && info.partNum == k
  {
    if infos[0].partNum == k then infos[0]
    else
      assert HasNumber(infos[1..], k) by {
        var i :| 0 <= i < |infos| && infos[i].partNum == k;
        assert infos[1..][i - 1] == infos[i];
      }
      Numbered(infos[1..], k)
  }

  function InOrder(infos: seq<PartInfo>): (ordered: seq<PartInfo>)
    requires Complete(infos)
    ensures |ordered| == |infos|
    ensures forall i | 0 <= i < |ordered| :: ordered[i] in infos && ordered[i].partNum == i + 1
  {
    seq(|infos|, i requires 0 <= i < |infos| => Numbered(infos, i + 1))
  }

  predicate Parsed(infos: seq<PartInfo>) {
    forall i | 0 <= i < |infos| :: ParsePart(infos[i].message) == Ok(infos[i])
  }

  function JoinTexts(gsm: Alphabet, infos: seq<PartInfo>): Result<GoString>
    requires Parsed(infos)
  {
    if infos == [] then Ok([])
    else
      var text :- JoinTexts(gsm, infos[..|infos| - 1]);
      var last := infos[|infos| - 1].message;
      var partText :- DecodeText(gsm, Payload(last), last.dataCoding);
      Ok(text + partText)
  }

  /** The message made of the parts in order, based on the first. */
  function Joined(gsm: Alphabet, ordered: seq<PartInfo>): Result<Message>
    requires gsm.Valid() && ordered != [] && Parsed(ordered)
  {
    var text :- JoinTexts(gsm, ordered);
    var first := ordered[0].message;
    var encoded :- EncodeText(gsm, text, first.dataCoding);
    Ok(first.(text := text, esmClass := ClearUdhi(first.esmClass), shortMessage := encoded))
  }

  function Reassembled(gsm: Alphabet, parts: seq<Message>): Result<Message>
    requires gsm.Valid()
  {
    if parts == [] then Err(NoParts)
    else if |parts| == 1 then Ok(parts[0])
    else
      var infos :- ScanParts(parts);
      ScanIsParse(parts);
      assert Parsed(infos);
      if |infos| != infos[0].totalParts then Err(WrongPartCount)
      else if !Complete(infos) then Err(MissingPart)
      else Joined(gsm, InOrder(infos))
  }

  // ---------------------------------------------------------------- the header scan

  ghost predicate Consistent(parts: seq<Message>) {
    && (forall m | m in parts :: ParsePart(m).Ok?)
    && forall m, n | m in parts && n in parts :: SameMessage(ParsePart(m).value, ParsePart(n).value)
  }

  lemma ConsistentSnoc(before: seq<Message>, m: Message)
    ensures Consistent(before + [m]) <==>
            && Consistent(before)
            && ParsePart(m).Ok?
            && (before != [] ==> SameMessage(ParsePart(m).value, ParsePart(before[0]).value))
  {
    var parts := before + [m];
    assert forall x :: x in parts <==> x in before || x == m;
    if before != [] {
      assert before[0] in before;
    }
  }

  /** The scan accepts exactly the consistent part lists, and reads each part on its own. */
  lemma {:induction false} ScanIsParse(parts: seq<Message>)
    ensures ScanParts(parts).Ok? <==> Consistent(parts)
    ensures ScanParts(parts).Ok? ==> IsParse(ScanParts(parts).value, parts)
  {
    if parts != [] {
      var n := |parts| - 1;
      ScanIsParse(parts[..n]);
      ConsistentSnoc(parts[..n], parts[n]);
      assert parts[..n] + [parts[n]] == parts;
    }
  }

  predicate IsParse(infos: seq<PartInfo>, parts: seq<Message>) {
    |infos| == |parts| && forall i | 0 <= i < |parts| :: ParsePart(parts[i]) == Ok(infos[i])
  }

  lemma {:induction false} ScanErrorStays(parts: seq<Message>, k: nat)
    requires k <= |parts| && ScanParts(parts[..k]).Err?
    ensures ScanParts(parts) == ScanParts(parts[..k])
  {
    if k == |parts| {
      assert parts[..k] == parts;
    } else {
      var before := parts[..|parts| - 1];
      assert before[..k] == parts[..k];
      ScanErrorStays(before, k);
    }
  }

  // ---------------------------------------------------------------- part numbers

  ghost predicate Covers(nums: seq<int>) {
    forall k | 1 <= k <= |nums| :: k in nums
  }

  /** n numbers that cover 1..n are a permutation of 1..n. */
  lemma {:induction false} CoverIsBijection(nums: seq<int>)
    requires Covers(nums)
    ensures forall i | 0 <= i < |nums| :: 1 <= nums[i] <= |nums|
    ensures forall i, j | 0 <= i < j < |nums| :: nums[i] != nums[j]
  {
    if nums != [] {
      var n := |nums|;
      assert n in nums;
      var a :| 0 <= a < n && nums[a] == n;
      var rest := nums[..a] + nums[a + 1..];
      forall k | 1 <= k < n ensures k in rest {
        assert k in nums;
        var b :| 0 <= b < n && nums[b] == k;
        assert rest[if b < a then b else b - 1] == k;
      }
      CoverIsBijection(rest);
      forall i | 0 <= i < n && i != a ensures 1 <= nums[i] < n {
        assert rest[if i < a then i else i - 1] == nums[i];
      }
      forall i, j | 0 <= i < j < n ensures nums[i] != nums[j] {
        if i != a && j != a {
          assert rest[if i < a then i else i - 1] == nums[i];
          assert rest[if j < a then j else j - 1] == nums[j];
        }
      }
    }
  }

  function Numbers(infos: seq<PartInfo>): (nums: seq<int>)
    ensures |nums| == |infos|
    ensures forall i | 0 <= i < |infos| :: nums[i] == infos[i].partNum
  {
    seq(|infos|, i requires 0 <= i < |infos| => infos[i].partNum)
  }

  /** Complete parts bear each number exactly once. */
  lemma CompleteIsUnique(infos: seq<PartInfo>)
    requires Complete(infos)
    ensures forall i | 0 <= i < |infos| :: 1 <= infos[i].partNum <= |infos|
    ensures forall i, j | 0 <= i < |infos| && 0 <= j < |infos| && infos[i].partNum == infos[j].partNum :: i == j
  {
    var nums := Numbers(infos);
    forall k | 1 <= k <= |nums| ensures k in nums {
      assert HasNumber(infos, k);
      var i :| 0 <= i < |infos| && infos[i].partNum == k;
      assert nums[i] == k;
    }
    CoverIsBijection(nums);
  }

  /** Complete parts in ascending order are numbered 1, 2, 3, … */
  lemma SortedComplete(infos: seq<PartInfo>)
    requires Complete(infos) && Sorted(infos, (p: PartInfo) => p.partNum)
    ensures forall i | 0 <= i < |infos| :: infos[i].partNum == i + 1
  {
    CompleteIsUnique(infos);
    forall i | 0 <= i < |infos| ensures infos[i].partNum == i + 1 {
      NumberAtLeast(infos, i);
      NumberAtMost(infos, i);
    }
  }

  ghost predicate Ascending(infos: seq<PartInfo>) {
    && (forall i | 0 <= i < |infos| :: 1 <= infos[i].partNum <= |infos|)
    && forall i, j | 0 <= i < j < |infos| :: infos[i].partNum < infos[j].partNum
  }

  lemma {:induction false} NumberAtLeast(infos: seq<PartInfo>, i: nat)
    requires Ascending(infos) && i < |infos|
    ensures infos[i].partNum >= i + 1
  {
    if i > 0 { NumberAtLeast(infos, i - 1); }
  }

  lemma {:induction false} NumberAtMost(infos: seq<PartInfo>, i: nat)
    requires Ascending(infos) && i < |infos|
    ensures infos[i].partNum <= i + 1
    decreases |infos| - i
  {
    if i + 1 < |infos| { NumberAtMost(infos, i + 1); }
  }

  /** Parts numbered 1, 2, 3, … are complete and in order. */
  lemma InOrderOfNumbered(infos: seq<PartInfo>, ordered: seq<PartInfo>)
    requires multiset(infos) == multiset(ordered) && |infos| == |ordered|
    requires forall i | 0 <= i < |ordered| :: ordered[i].partNum == i + 1
    ensures Complete(infos) && InOrder(infos) == ordered
  {
    forall k | 1 <= k <= |infos| ensures HasNumber(infos, k) {
      assert ordered[k - 1] in multiset(ordered);
      assert ordered[k - 1] in infos;
    }
    forall i | 0 <= i < |infos| ensures InOrder(infos)[i] == ordered[i] {
      assert InOrder(infos)[i] in multiset(infos);
      assert InOrder(infos)[i] in ordered;
    }
  }

  lemma CompletePermuted(infos: seq<PartInfo>, ordered: seq<PartInfo>)
    requires multiset(infos) == multiset(ordered) && |infos| == |ordered| && Complete(infos)
    ensures Complete(ordered)
  {
    forall k | 1 <= k <= |ordered| ensures HasNumber(ordered, k) {
      assert HasNumber(infos, k);
      var info := Numbered(infos, k);
      assert info in multiset(infos);
      assert info in ordered;
    }
  }

  // ---------------------------------------------------------------- exactly what is accepted

  /** Part i is the one part that bears number k. */
  ghost predicate OnlyBearer(parts: seq<Message>, i: nat, k: nat)
    requires Consistent(parts) && i < |parts|
  {
    && ParsePart(parts[i]).value.partNum == k
    && forall j | 0 <= j < |parts| && j != i :: ParsePart(parts[j]).value.partNum != k
  }

  ghost predicate BorneOnce(parts: seq<Message>, k: nat)
    requires Consistent(parts)
  {
    exists i :: 0 <= i < |parts| && OnlyBearer(parts, i, k)
  }

  ghost predicate OnceEach(parts: seq<Message>)
    requires Consistent(parts)
  {
    forall k | 1 <= k <= |parts| :: BorneOnce(parts, k)
  }

  /** A complete set: one reference, one total that is the number of parts, every number
      from 1 to the total exactly once. */
  ghost predicate CompleteSet(parts: seq<Message>) {
    && Consistent(parts)
    && (forall m | m in parts :: ParsePart(m).value.totalParts == |parts|)
    && OnceEach(parts)
  }

  ghost predicate AllDecode(gsm: Alphabet, parts: seq<Message>)
    requires Consistent(parts)
  {
    forall m | m in parts :: DecodeText(gsm, Payload(m), m.dataCoding).Ok?
  }

  /** The parts of a complete set in the order of their numbers. */
  ghost function Ordered(parts: seq<Message>): (ordered: seq<PartInfo>)
    requires CompleteSet(parts)
    ensures |ordered| == |parts| && Parsed(ordered)
    ensures forall i | 0 <= i < |ordered| :: ordered[i].message in parts && ordered[i].partNum == i + 1
  {
    ScanIsParse(parts);
    var infos := ScanParts(parts).value;
    OnceEachIsComplete(infos, parts);
    forall i | 0 <= i < |infos|
      ensures ParsePart(InOrder(infos)[i].message) == Ok(InOrder(infos)[i]) && InOrder(infos)[i].message in parts
    {
      InfoOfPart(infos, parts, InOrder(infos)[i]);
    }
    InOrder(infos)
  }

  lemma InfoOfPart(infos: seq<PartInfo>, parts: seq<Message>, info: PartInfo)
    requires IsParse(infos, parts) && info in infos
    ensures info.message in parts && ParsePart(info.message) == Ok(info)
  {
    var i :| 0 <= i < |infos| && infos[i] == info;
    assert ParsePart(parts[i]) == Ok(infos[i]);
  }

  lemma OnceEachIsComplete(infos: seq<PartInfo>, parts: seq<Message>)
    requires Consistent(parts) && IsParse(infos, parts)
    ensures OnceEach(parts) <==> Complete(infos)
  {
    if OnceEach(parts) {
      forall k | 1 <= k <= |infos| ensures HasNumber(infos, k) {
        assert BorneOnce(parts, k);
        var i :| 0 <= i < |parts| && OnlyBearer(parts, i, k);
        assert infos[i].partNum == k;
      }
    }
    if Complete(infos) {
      CompleteIsUnique(infos);
      forall k | 1 <= k <= |parts| ensures BorneOnce(parts, k) {
        assert HasNumber(infos, k);
        var i :| 0 <= i < |infos| && infos[i].partNum == k;
        assert OnlyBearer(parts, i, k);
      }
    }
  }

  lemma {:induction false} JoinTextsOk(gsm: Alphabet, infos: seq<PartInfo>)
    requires Parsed(infos)
    ensures JoinTexts(gsm, infos).Ok? <==>
            forall i | 0 <= i < |infos| :: DecodeText(gsm, Payload(infos[i].message), infos[i].message.dataCoding).Ok?
  {
    if infos != [] {
      JoinTextsOk(gsm, infos[..|infos| - 1]);
    }
  }

  /** The texts of a complete set, joined in the order of the part numbers. */
  ghost function JoinedText(gsm: Alphabet, parts: seq<Message>): GoString
    requires CompleteSet(parts) && AllDecode(gsm, parts)
  {
    JoinTextsOk(gsm, Ordered(parts));
    JoinTexts(gsm, Ordered(parts)).value
  }

  /** Only UCS2 can refuse to re-encode, and only invalid UTF-8. */
  ghost predicate Reencodes(gsm: Alphabet, parts: seq<Message>)
    requires CompleteSet(parts) && AllDecode(gsm, parts) && parts != []
  {
    Ordered(parts)[0].message.dataCoding == UCS2 ==> ValidString(JoinedText(gsm, parts))
  }

  lemma JoinedExactly(gsm: Alphabet, parts: seq<Message>)
    requires gsm.Valid() && parts != [] && CompleteSet(parts)
    ensures Joined(gsm, Ordered(parts)).Ok? <==> AllDecode(gsm, parts) && Reencodes(gsm, parts)
  {
    var ordered := Ordered(parts);
    JoinTextsOk(gsm, ordered);
    OrderedCovers(parts);
    if AllDecode(gsm, parts) {
      assert ordered[0].message in parts;
    }
  }

  lemma OrderedCovers(parts: seq<Message>)
    requires CompleteSet(parts)
    ensures forall m | m in parts :: exists i :: 0 <= i < |parts| && Ordered(parts)[i].message == m
  {
    ScanIsParse(parts);
    var infos := ScanParts(parts).value;
    OnceEachIsComplete(infos, parts);
    CompleteIsUnique(infos);
    forall m | m in parts ensures exists i :: 0 <= i < |parts| && Ordered(parts)[i].message == m {
      var j :| 0 <= j < |parts| && parts[j] == m;
      var k := infos[j].partNum;
      assert HasNumber(infos, k);
      assert InOrder(infos)[k - 1] == Numbered(infos, k);
      var l :| 0 <= l < |infos| && infos[l] == Numbered(infos, k);
      InfoOfPart(infos, parts, infos[j]);
      assert Ordered(parts)[k - 1].message == m;
    }
  }

  /** Reassembly of two or more parts succeeds exactly on complete sets whose payloads all
      decode and whose joined text re-encodes in the coding of part 1; the result is that
      of joining the parts in the order of their numbers. */
  lemma ReassembledExactly(gsm: Alphabet, parts: seq<Message>)
    requires gsm.Valid() && |parts| >= 2
    ensures Reassembled(gsm, parts).Ok? <==>
            CompleteSet(parts) && AllDecode(gsm, parts) && Reencodes(gsm, parts)
    ensures CompleteSet(parts) ==> Reassembled(gsm, parts) == Joined(gsm, Ordered(parts))
  {
    ScanIsParse(parts);
    if Consistent(parts) {
      OnceEachIsComplete(ScanParts(parts).value, parts);
      assert parts[0] in parts;
    }
    if CompleteSet(parts) {
      JoinedExactly(gsm, parts);
    }
  }

  // ---------------------------------------------------------------- headers in octets

  /** A part's header and payload; extra is what a longer header has behind its first element. */
  datatype Heading = Heading(refNum: uint16, total: byte, number: byte, extra: seq<byte>, payload: seq<byte>)

  /** The part is flagged, and its octets are: the header's length, 0x00, 0x03, the reference, most
      significant octet first, the total, the number, whatever else the header has, the payload. */
  predicate Bears(m: Message, h: Heading) {
    && m.esmClass % 128 >= 64 && |h.extra| <= 248
    && m.shortMessage == [6 + |h.extra|, 0x00, 0x03, h.refNum / 256, h.refNum % 256, h.total, h.number] + h.extra + h.payload
  }

  /** A part with such octets is parsed as what they say. */
  lemma HeadingIsParsed(m: Message, h: Heading)
    requires Bears(m, h)
    ensures ParsePart(m) == Ok(PartInfo(m, h.number, h.total, h.refNum)) && Payload(m) == h.payload
  {
    var head := [6 + |h.extra|, 0x00, 0x03, h.refNum / 256, h.refNum % 256, h.total, h.number];
    assert m.shortMessage[..7] == head;
    assert forall i | 0 <= i < 7 :: m.shortMessage[i] == head[i];
    assert m.shortMessage[7 + |h.extra|..] == h.payload;
  }

  /** A part that is parsed has such octets. */
  lemma ParsedIsHeading(m: Message) returns (h: Heading)
    requires ParsePart(m).Ok?
    ensures Bears(m, h)
  {
    var sm, info := m.shortMessage, ParsePart(m).value;
    h := Heading(info.refNum, info.totalParts, info.partNum, sm[7..1 + sm[0]], sm[1 + sm[0]..]);
    var head := [6 + |h.extra|, 0x00, 0x03, h.refNum / 256, h.refNum % 256, h.total, h.number];
    assert h.refNum / 256 == sm[3] && h.refNum % 256 == sm[4];
    assert sm[..7] == head;
    assert sm == sm[..7] + sm[7..1 + sm[0]] + sm[1 + sm[0]..];
  }

  /** Every other part is refused, for the first of these reasons. */
  lemma HeaderErrors(m: Message)
    requires ParsePart(m).Err?
    ensures var sm := m.shortMessage;
            ParsePart(m).error ==
              if m.esmClass % 128 < 64 then MissingUdhi
              else if |sm| < 7 then TooShortForUdh
              else if sm[0] >= |sm| then InvalidUdhLength
              else if sm[0] == 255 then SliceOutOfRange
              else InvalidUdh
  {
  }

  /** The element of a 16-bit reference as 3GPP TS 23.040 has it (section 9.2.3.24.8), 06 08 04, is refused. */
  lemma StandardSixteenBitIsRefused(m: Message, h: byte, l: byte, total: byte, number: byte, payload: seq<byte>)
    requires HasUdhi(m.esmClass) && m.shortMessage == [0x06, 0x08, 0x04, h, l, total, number] + payload
    ensures ParsePart(m) == Err(InvalidUdh)
  {
    assert m.shortMessage[0] == 6 && m.shortMessage[1] == 0x08;
  }

  /** All parts bear one reference and as total their number, and order lists the places of the parts
      with numbers 1, 2, 3, … */
  ghost predicate CompleteOctets(parts: seq<Message>, heads: seq<Heading>, order: seq<nat>) {
    && |heads| == |parts| == |order|
    && (forall i | 0 <= i < |parts| :: Bears(parts[i], heads[i]))
    && (forall i | 0 <= i < |parts| :: heads[i].refNum == heads[0].refNum && heads[i].total == |parts|)
    && forall k | 0 <= k < |order| :: order[k] < |parts| && heads[order[k]].number == k + 1
  }

  lemma OctetsAreParsed(parts: seq<Message>, heads: seq<Heading>, order: seq<nat>)
    requires CompleteOctets(parts, heads, order)
    ensures forall i | 0 <= i < |parts| ::
              ParsePart(parts[i]) == Ok(PartInfo(parts[i], heads[i].number, |parts|, heads[0].refNum)) &&
              Payload(parts[i]) == heads[i].payload
  {
    forall i | 0 <= i < |parts|
      ensures ParsePart(parts[i]) == Ok(PartInfo(parts[i], heads[i].number, |parts|, heads[0].refNum))
      ensures Payload(parts[i]) == heads[i].payload
    {
      HeadingIsParsed(parts[i], heads[i]);
    }
  }

  lemma OctetsAreConsistent(parts: seq<Message>, heads: seq<Heading>, order: seq<nat>)
    requires CompleteOctets(parts, heads, order)
    ensures Consistent(parts) && forall m | m in parts :: ParsePart(m).value.totalParts == |parts|
  {
    OctetsAreParsed(parts, heads, order);
    forall m | m in parts
      ensures ParsePart(m).Ok? && ParsePart(m).value.totalParts == |parts| && ParsePart(m).value.refNum == heads[0].refNum
    {
      var i :| 0 <= i < |parts| && parts[i] == m;
    }
  }

  function NumbersOf(heads: seq<Heading>): (nums: seq<int>)
    ensures |nums| == |heads| && forall i | 0 <= i < |heads| :: nums[i] == heads[i].number
  {
    seq(|heads|, i requires 0 <= i < |heads| => heads[i].number)
  }

  lemma NumbersAreDistinct(parts: seq<Message>, heads: seq<Heading>, order: seq<nat>)
    requires CompleteOctets(parts, heads, order)
    ensures forall i, j | 0 <= i < j < |heads| :: heads[i].number != heads[j].number
  {
    var nums := NumbersOf(heads);
    forall k | 1 <= k <= |nums| ensures k in nums {
      assert nums[order[k - 1]] == k;
    }
    CoverIsBijection(nums);
    assert forall i, j | 0 <= i < j < |heads| :: nums[i] != nums[j];
  }

  lemma OctetsAreComplete(parts: seq<Message>, heads: seq<Heading>, order: seq<nat>)
    requires CompleteOctets(parts, heads, order)
    ensures CompleteSet(parts)
    ensures forall k | 0 <= k < |parts| :: Ordered(parts)[k].message == parts[order[k]]
  {
    OctetsAreParsed(parts, heads, order);
    OctetsAreConsistent(parts, heads, order);
    NumbersAreDistinct(parts, heads, order);
    forall k | 1 <= k <= |parts| ensures BorneOnce(parts, k) {
      assert OnlyBearer(parts, order[k - 1], k);
    }
    forall k | 0 <= k < |parts| ensures Ordered(parts)[k].message == parts[order[k]] {
      PlaceInOrder(parts, NumbersOf(heads), k, order[k]);
    }
  }

  lemma PlaceInOrder(parts: seq<Message>, nums: seq<int>, k: nat, i: nat)
    requires CompleteSet(parts) && k < |parts| == |nums| && i < |parts| && nums[i] == k + 1
    requires forall j | 0 <= j < |parts| :: ParsePart(parts[j]).Ok? && ParsePart(parts[j]).value.partNum == nums[j]
    requires forall j | 0 <= j < |nums| && j != i :: nums[j] != nums[i]
    ensures Ordered(parts)[k].message == parts[i]
  {
    var info := Ordered(parts)[k];
    assert ParsePart(info.message) == Ok(info);
    var j :| 0 <= j < |parts| && parts[j] == info.message;
  }

  /** A complete set is one whose octets say so. */
  lemma CompleteSetInOctets(parts: seq<Message>) returns (heads: seq<Heading>, order: seq<nat>)
    requires CompleteSet(parts)
    ensures CompleteOctets(parts, heads, order)
  {
    heads := [];
    while |heads| < |parts|
      invariant |heads| <= |parts|
      invariant forall i | 0 <= i < |heads| :: Bears(parts[i], heads[i])
    {
      assert parts[|heads|] in parts;
      var h := ParsedIsHeading(parts[|heads|]);
      heads := heads + [h];
    }
    forall i | 0 <= i < |parts|
      ensures ParsePart(parts[i]) == Ok(PartInfo(parts[i], heads[i].number, heads[i].total, heads[i].refNum))
    {
      HeadingIsParsed(parts[i], heads[i]);
    }
    forall i | 0 <= i < |parts| ensures heads[i].refNum == heads[0].refNum && heads[i].total == |parts| {
      assert parts[i] in parts && parts[0] in parts;
      assert SameMessage(ParsePart(parts[i]).value, ParsePart(parts[0]).value);
    }
    order := [];
    while |order| < |parts|
      invariant |order| <= |parts|
      invariant forall k | 0 <= k < |order| :: order[k] < |parts| && heads[order[k]].number == k + 1
    {
      assert BorneOnce(parts, |order| + 1);
      var i: nat :| i < |parts| && OnlyBearer(parts, i, |order| + 1);
      order := order + [i];
    }
  }

  /** No part and one part. */
  lemma FewParts(gsm: Alphabet, m: Message)
    requires gsm.Valid()
    ensures Reassembled(gsm, []) == Err(NoParts) && Reassembled(gsm, [m]) == Ok(m)
  {
  }

  /** The scan stops at the first part that does not parse or does not go with part 0. */
  lemma FirstBadPart(gsm: Alphabet, parts: seq<Message>, k: nat)
    requires gsm.Valid() && |parts| >= 2 && k < |parts| && Consistent(parts[..k])
    ensures ParsePart(parts[k]).Err? ==> Reassembled(gsm, parts) == Err(ParsePart(parts[k]).error)
    ensures k > 0 && ParsePart(parts[k]).Ok? && ParsePart(parts[0]).Ok? ==>
              var p, q := ParsePart(parts[k]).value, ParsePart(parts[0]).value;
              && (p.totalParts != q.totalParts ==> Reassembled(gsm, parts) == Err(InconsistentTotal))
              && (p.totalParts == q.totalParts && p.refNum != q.refNum ==> Reassembled(gsm, parts) == Err(InconsistentReference))
  {
    ScanIsParse(parts[..k]);
    assert parts[..k + 1][..k] == parts[..k];
    assert k > 0 ==> parts[..k][0] == parts[0];
    if ScanParts(parts[..k + 1]).Err? {
      ScanErrorStays(parts, k + 1);
    }
  }

  /** So a message that arrives in parts with the standard element is not put together. */
  lemma StandardPartsAreRefused(gsm: Alphabet, m: Message, h: byte, l: byte, total: byte, number: byte,
                                payload: seq<byte>, others: seq<Message>)
    requires gsm.Valid() && HasUdhi(m.esmClass) && others != []
    requires m.shortMessage == [0x06, 0x08, 0x04, h, l, total, number] + payload
    ensures Reassembled(gsm, [m] + others) == Err(InvalidUdh)
  {
    StandardSixteenBitIsRefused(m, h, l, total, number, payload);
    FirstBadPart(gsm, [m] + others, 0);
  }

  /** Parts that go together: their total must be their number, and then every number must be there. */
  lemma SetErrors(gsm: Alphabet, parts: seq<Message>)
    requires gsm.Valid() && |parts| >= 2 && Consistent(parts)
    ensures ParsePart(parts[0]).Ok?
    ensures ParsePart(parts[0]).value.totalParts != |parts| ==> Reassembled(gsm, parts) == Err(WrongPartCount)
    ensures ParsePart(parts[0]).value.totalParts == |parts| && !OnceEach(parts) ==> Reassembled(gsm, parts) == Err(MissingPart)
  {
    ScanIsParse(parts);
    assert parts[0] in parts;
    OnceEachIsComplete(ScanParts(parts).value, parts);
  }

  // ---------------------------------------------------------------- exactly when it panics

  /** A first octet of 255 that passes the length check. */
  predicate Panics(part: Message) {
    HasUdhi(part.esmClass) && |part.shortMessage| > 255 && part.shortMessage[0] == 255
  }

  /** The scan gets as far as part k, and part k panics. */
  ghost predicate PanicsAt(parts: seq<Message>, k: nat) {
    k < |parts| && Consistent(parts[..k]) && Panics(parts[k])
  }

  lemma {:induction false} ScanPanicsExactly(parts: seq<Message>)
    ensures ScanParts(parts) == Err(SliceOutOfRange) <==> exists k :: PanicsAt(parts, k)
  {
    if parts != [] {
      var n := |parts| - 1;
      var before := parts[..n];
      ScanPanicsExactly(before);
      ScanIsParse(before);
      assert forall k: nat | k < n :: before[..k] == parts[..k];
      assert forall k: nat | k < n :: PanicsAt(before, k) <==> PanicsAt(parts, k);
      assert PanicsAt(parts, n) <==> ScanParts(before).Ok? && ParsePart(parts[n]) == Err(SliceOutOfRange);
    }
  }

  lemma {:induction false} JoinNeverPanics(gsm: Alphabet, infos: seq<PartInfo>)
    requires Parsed(infos)
    ensures JoinTexts(gsm, infos) != Err(SliceOutOfRange)
  {
    if infos != [] {
      JoinNeverPanics(gsm, infos[..|infos| - 1]);
    }
  }

  lemma JoinedNeverPanics(gsm: Alphabet, ordered: seq<PartInfo>)
    requires gsm.Valid() && ordered != [] && Parsed(ordered)
    ensures Joined(gsm, ordered) != Err(SliceOutOfRange)
  {
    JoinNeverPanics(gsm, ordered);
  }

  lemma ScannedNeverPanics(gsm: Alphabet, parts: seq<Message>)
    requires gsm.Valid() && |parts| >= 2 && ScanParts(parts).Ok?
    ensures Reassembled(gsm, parts) != Err(SliceOutOfRange)
  {
    ScanIsParse(parts);
    var infos := ScanParts(parts).value;
    assert Parsed(infos);
    if Complete(infos) {
      JoinedNeverPanics(gsm, InOrder(infos));
    }
  }

  lemma OnlyTheScanPanics(gsm: Alphabet, parts: seq<Message>)
    requires gsm.Valid() && |parts| >= 2
    ensures Reassembled(gsm, parts) == Err(SliceOutOfRange) <==> ScanParts(parts) == Err(SliceOutOfRange)
  {
    if ScanParts(parts).Ok? {
      ScannedNeverPanics(gsm, parts);
    }
  }

  /** Reassembly panics exactly when a part of more than 255 octets with a first octet of 255 is
      reached, every part before it being consistent.  No part read off a PDU is that long. */
  lemma PanicsExactly(gsm: Alphabet, parts: seq<Message>)
    requires gsm.Valid()
    ensures Reassembled(gsm, parts) == Err(SliceOutOfRange) <==> |parts| >= 2 && exists k :: PanicsAt(parts, k)
    ensures (forall m | m in parts :: |m.shortMessage| <= 255) ==> Reassembled(gsm, parts) != Err(SliceOutOfRange)
  {
    if |parts| >= 2 {
      OnlyTheScanPanics(gsm, parts);
      ScanPanicsExactly(parts);
    }
  }

  /** 256 octets of 255. */
  const OVERLONG: seq<byte> := seq(256, i => 255)

  lemma OverlongPanics(gsm: Alphabet, m: Message, other: Message)
    requires gsm.Valid() && HasUdhi(m.esmClass) && m.shortMessage == OVERLONG
    ensures Reassembled(gsm, [m, other]) == Err(SliceOutOfRange)
  {
    var parts := [m, other];
    assert parts[..0] == [];
    assert PanicsAt(parts, 0);
    PanicsExactly(gsm, parts);
  }

  // ---------------------------------------------------------------- order of arrival

  lemma SameMembers(p: seq<Message>, q: seq<Message>)
    requires multiset(p) == multiset(q)
    ensures |p| == |q|
    ensures forall m :: m in p <==> m in q
  {
    assert |multiset(p)| == |multiset(q)|;
    forall m ensures m in p <==> m in q {
      assert m in multiset(p) <==> m in multiset(q);
    }
  }

  lemma CompleteSetPermuted(p: seq<Message>, q: seq<Message>)
    requires multiset(p) == multiset(q) && CompleteSet(p)
    ensures CompleteSet(q) && Ordered(q) == Ordered(p)
  {
    SameMembers(p, q);
    ScanIsParse(p);
    ScanIsParse(q);
    var ps, qs := ScanParts(p).value, ScanParts(q).value;
    OnceEachIsComplete(ps, p);
    forall info | info in ps ensures info in qs {
      InfoOfPart(ps, p, info);
      var j :| 0 <= j < |q| && q[j] == info.message;
      assert qs[j] == info;
    }
    forall k | 1 <= k <= |qs| ensures HasNumber(qs, k) {
      assert HasNumber(ps, k);
      var info := Numbered(ps, k);
      assert info in qs;
    }
    OnceEachIsComplete(qs, q);
    CompleteIsUnique(qs);
    forall i | 0 <= i < |ps| ensures InOrder(qs)[i] == InOrder(ps)[i] {
      assert InOrder(ps)[i] in qs;
    }
  }

  /** The order of arrival matters neither for success nor for the result. */
  lemma OrderIndependent(gsm: Alphabet, p: seq<Message>, q: seq<Message>)
    requires gsm.Valid() && multiset(p) == multiset(q)
    ensures Reassembled(gsm, p).Ok? <==> Reassembled(gsm, q).Ok?
    ensures Reassembled(gsm, p).Ok? ==> Reassembled(gsm, q) == Reassembled(gsm, p)
  {
    SameMembers(p, q);
    if |p| == 1 {
      assert p[0] in q;
    } else if |p| >= 2 {
      ReassembledExactly(gsm, p);
      ReassembledExactly(gsm, q);
      if CompleteSet(p) {
        CompleteSetPermuted(p, q);
      } else if CompleteSet(q) {
        CompleteSetPermuted(q, p);
      }
    }
  }

  // ---------------------------------------------------------------- the code

  method ParseHeader(part: Message) returns (r: Result<PartInfo>)
    ensures r == ParsePart(part)
  {
    if !HasUdhi(part.esmClass) {
      return Err(MissingUdhi);
    }
    if |part.shortMessage| < 7 {
      return Err(TooShortForUdh);
    }
    var udhLength := part.shortMessage[0];
    if udhLength >= |part.shortMessage| {
      return Err(InvalidUdhLength);
    }
    var end := (1 + udhLength as int) % 0x100;
    if end < 1 {
      return Err(SliceOutOfRange);
    }
    var udh := part.shortMessage[1..end];
    if |udh| < 6 || udh[0] != 0x00 || udh[1] != 0x03 {
      return Err(InvalidUdh);
    }
    var partRefNum := FromOctets(udh[2], udh[3]);
    var totalParts, partNumber := udh[4], udh[5];
    r := Ok(PartInfo(part, partNumber, totalParts, partRefNum));
  }

  method ScanHeaders(parts: seq<Message>) returns (r: Result<seq<PartInfo>>)
    ensures r == ScanParts(parts)
  {
    var partInfos: seq<PartInfo> := [];
    var expectedTotal: byte, refNum: uint16 := 0, 0;
    for k := 0 to |parts|
      invariant ScanParts(parts[..k]) == Ok(partInfos)
      invariant partInfos != [] ==> expectedTotal == partInfos[0].totalParts && refNum == partInfos[0].refNum
    {
      assert parts[..k + 1][..k] == parts[..k];
      if ScanParts(parts[..k + 1]).Err? {
        ScanErrorStays(parts, k + 1);
      }
      var info :- ParseHeader(parts[k]);
      if |partInfos| == 0 {
        expectedTotal, refNum := info.totalParts, info.refNum;
      } else if info.totalParts != expectedTotal {
        return Err(InconsistentTotal);
      } else if info.refNum != refNum {
        return Err(InconsistentReference);
      }
      partInfos := partInfos + [info];
    }
    assert parts[..|parts|] == parts;
    r := Ok(partInfos);
  }

  /** The in-place sort and the check that the numbers are then 1, 2, 3, … */
  method SortParts(partInfos: seq<PartInfo>) returns (r: Result<seq<PartInfo>>)
    requires |partInfos| <= 255
    ensures r == if Complete(partInfos) then Ok(InOrder(partInfos)) else Err(MissingPart)
  {
    var a := new PartInfo[|partInfos|](i requires 0 <= i < |partInfos| => partInfos[i]);
    assert a[..] == partInfos;
    ExchangeSort(a, (p: PartInfo) => p.partNum);
    assert |multiset(a[..])| == |multiset(partInfos)|;
    if Complete(partInfos) {
      CompletePermuted(partInfos, a[..]);
      SortedComplete(a[..]);
    }
    for i := 0 to a.Length
      invariant forall k | 0 <= k < i :: a[..][k].partNum == k + 1
    {
      var expected: byte := i + 1;
      assert a[i] == a[..][i];
      if a[i].partNum != expected {
        return Err(MissingPart);
      }
    }
    InOrderOfNumbered(partInfos, a[..]);
    r := Ok(a[..]);
  }

  lemma JoinTextsAt(gsm: Alphabet, infos: seq<PartInfo>, k: nat)
    requires Parsed(infos) && k < |infos| && JoinTexts(gsm, infos[..k]).Ok?
    ensures var m := infos[k].message;
            var partText := DecodeText(gsm, Payload(m), m.dataCoding);
            JoinTexts(gsm, infos[..k + 1]) ==
            if partText.Err? then Err(partText.error) else Ok(JoinTexts(gsm, infos[..k]).value + partText.value)
  {
    assert infos[..k + 1][..k] == infos[..k];
  }

  method DecodePart(gsm: Alphabet, info: PartInfo) returns (r: Result<GoString>)
    requires ParsePart(info.message) == Ok(info)
    ensures r == DecodeText(gsm, Payload(info.message), info.message.dataCoding)
  {
    var udhLength := info.message.shortMessage[0];
    var textBytes := info.message.shortMessage[(1 + udhLength as int) % 0x100..];
    r := Decode(gsm, textBytes, info.message.dataCoding);
  }

  method JoinParts(gsm: Alphabet, ordered: seq<PartInfo>) returns (r: Result<GoString>)
    requires Parsed(ordered)
    ensures r == JoinTexts(gsm, ordered)
  {
    var fullText: GoString := [];
    for k := 0 to |ordered|
      invariant JoinTexts(gsm, ordered[..k]) == Ok(fullText)
    {
      JoinTextsAt(gsm, ordered, k);
      var partText := DecodePart(gsm, ordered[k]);
      if partText.Err? {
        JoinErrorStays(gsm, ordered, k + 1);
        return Err(partText.error);
      }
      fullText := fullText + partText.value;
    }
    assert ordered[..|ordered|] == ordered;
    r := Ok(fullText);
  }

  lemma {:induction false} JoinErrorStays(gsm: Alphabet, infos: seq<PartInfo>, k: nat)
    requires k <= |infos| && Parsed(infos) && JoinTexts(gsm, infos[..k]).Err?
    ensures JoinTexts(gsm, infos) == JoinTexts(gsm, infos[..k])
  {
    if k == |infos| {
      assert infos[..k] == infos;
    } else {
      var before := infos[..|infos| - 1];
      assert before[..k] == infos[..k];
      JoinErrorStays(gsm, before, k);
    }
  }

  method ConcatenateSMSParts(gsm: Alphabet, parts: seq<Message>) returns (r: Result<Message>)
    requires gsm.Valid()
    ensures r == Reassembled(gsm, parts)
  {
    if |parts| == 0 {
      return Err(NoParts);
    }
    if |parts| == 1 {
      return Ok(parts[0]);
    }
    var partInfos :- ScanHeaders(parts);
    ScanIsParse(parts);
    assert Parsed(partInfos);
    if |partInfos| != partInfos[0].totalParts {
      return Err(WrongPartCount);
    }
    var ordered :- SortParts(partInfos);
    var text :- JoinParts(gsm, ordered);
    var concatenated := ordered[0].message.(text := text);
    concatenated := concatenated.(esmClass := ClearUdhi(concatenated.esmClass));
    var encoded :- Encode(gsm, concatenated.text, concatenated.dataCoding);
    r := Ok(concatenated.(shortMessage := encoded));
  }
}
