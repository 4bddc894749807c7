/** Printing a delivery receipt and reading its fields back by string searches. */
module Receipts {
  import opened GoStrings
  import opened Messages
  import opened Fields
  import opened StringSearch

  /** The labels the parser looks for, without their colon. */
  const ID: GoString := Ascii("id")
  const STAT: GoString := Ascii("stat")
  const SUBMIT_DATE: GoString := Ascii("submit date")
  const DONE_DATE: GoString := Ascii("done date")

  const RECEIPTED_MESSAGE_ID: uint16 := 0x001E

  /** Ten octets without a space or a colon. */
  predicate IsDate(d: GoString) {
    |d| == 10 && SPACE !in d && COLON !in d
  }

  function DateIn(following: Option<GoString>): Option<GoString> {
    if following.Some? && |following.value| >= 10 then Some(following.value[..10]) else None
  }

  /** `time.Parse` with the receipt's layout takes ten octets, digits but for a sign of the year. */
  ghost predicate TakesDates(parse: GoString -> Option<int>) {
    forall d | parse(d).Some? :: IsDate(d)
  }

  function TimeIn(parse: GoString -> Option<int>, following: Option<GoString>): Option<int> {
    var d := DateIn(following);
    if d.Some? then parse(d.value) else None
  }

  lemma TimeExactly(parse: GoString -> Option<int>, word: GoString, rest: GoString, date: GoString)
    requires TakesDates(parse) && parse(date).Some? && |rest| >= 10 && rest[0] == SPACE
    ensures TimeIn(parse, Some(word + rest)) == parse(date) <==> |word| >= 10 && parse(word[..10]) == parse(date)
  {
    var s := word + rest;
    if |word| < 10 {
      assert s[..10][|word|] == SPACE;
      assert !IsDate(s[..10]);
    } else {
      assert s[..10] == word[..10];
    }
  }

  // ---------------------------------------------------------------- the printer

  function StatusWord(status: MessageStatus): (word: GoString)
    ensures |word| == 7 && SPACE !in word && COLON !in word
  {
    match status
    case Delivered => Ascii("DELIVRD")
    case Expired => Ascii("EXPIRED")
    case Deleted => Ascii("DELETED")
    case Undeliverable => Ascii("UNDELIV")
    case Accepted => Ascii("ACCEPTD")
    case Rejected => Ascii("REJECTD")
    case _ => Ascii("UNKNOWN")
  }

  function ReportText(text: GoString): GoString {
    if |text| > 20 then text[..17] + Ascii("...") else text
  }

  function Labelled(tag: GoString, rest: GoString): GoString {
    tag + [COLON] + rest
  }

  /** From the error code on. */
  function Tail(text: GoString): GoString {
    Labelled(Ascii(" err"), Labelled(Ascii("000 text"), text))
  }

  function FromStat(status: GoString, text: GoString): GoString {
    Labelled([SPACE] + STAT, status + Tail(text))
  }

  function FromDone(doneDate: GoString, status: GoString, text: GoString): GoString {
    Labelled([SPACE] + DONE_DATE, doneDate + FromStat(status, text))
  }

  function ThreeLabels(rest: GoString): GoString {
    Labelled(Ascii(" sub"), Labelled(Ascii("001 dlvrd"), Labelled(Ascii("001 ") + SUBMIT_DATE, rest)))
  }

  /** Behind the message ID. */
  function Remainder(submitDate: GoString, doneDate: GoString, status: GoString, text: GoString): GoString {
    ThreeLabels(submitDate + FromDone(doneDate, status, text))
  }

  datatype DeliveryReport = DeliveryReport(
    messageID: GoString, submitDate: GoString, doneDate: GoString, status: GoString,
    error: GoString, text: GoString)

  function GenerateDeliveryReport(m: Message, status: MessageStatus, submitDate: GoString, doneDate: GoString)
    : DeliveryReport
  {
    DeliveryReport(m.id, submitDate, doneDate, StatusWord(status), Ascii("000"),
      Labelled(ID, m.id + Remainder(submitDate, doneDate, StatusWord(status), ReportText(m.text))))
  }

  // ---------------------------------------------------------------- the parser

  /** A time that is not found or not parsed stays unset. */
  datatype Receipt = Receipt(
    messageID: GoString, status: GoString, submitTime: Option<int>, doneTime: Option<int>, timestamp: Option<int>)

  function WordIn(following: Option<GoString>): GoString {
    if following.Some? then Word(following.value) else []
  }

  /** The value of the first TLV with the given tag. */
  function FirstValue(params: seq<OptionalParameter>, tag: uint16): GoString {
    if params == [] then []
    else if params[0].tag == tag then params[0].value
    else FirstValue(params[1..], tag)
  }

  function IDFallback(params: seq<OptionalParameter>, sourceAddr: GoString): GoString {
    var value := FirstValue(params, RECEIPTED_MESSAGE_ID);
    if value == [] then sourceAddr else value
  }

  /** What the client reads out of a receipt's octets. */
  function Parsed(parse: GoString -> Option<int>, text: GoString, params: seq<OptionalParameter>, sourceAddr: GoString)
    : Receipt
  {
    var id := WordIn(Following(text, ID + [COLON]));
    var doneTime := TimeIn(parse, Following(text, DONE_DATE + [COLON]));
    Receipt(
      if id == [] then IDFallback(params, sourceAddr) else id,
      WordIn(Following(text, STAT + [COLON])),
      TimeIn(parse, Following(text, SUBMIT_DATE + [COLON])),
      doneTime, doneTime)
  }

  method ParseWord(text: GoString, tag: GoString) returns (word: GoString)
    ensures word == WordIn(Following(text, tag))
  {
    word := [];
    var start := Index(text, tag);
    if start >= 0 {
      start := start + |tag|;
      var end := Index(text[start..], [SPACE]);
      if end > 0 {
        word := text[start..start + end];
      } else {
        word := text[start..];
      }
    }
  }

  method ParseTime(parse: GoString -> Option<int>, text: GoString, tag: GoString) returns (time: Option<int>)
    ensures time == TimeIn(parse, Following(text, tag))
  {
    time := None;
    var start := Index(text, tag);
    if start >= 0 {
      start := start + |tag|;
      if start + 10 <= |text| {
        assert text[start..start + 10] == text[start..][..10];
        var dateStr := text[start..start + 10];
        var t := parse(dateStr);
        if t.Some? {
          time := t;
        }
      }
    }
  }

  method ParseDeliveryReceipt(parse: GoString -> Option<int>, shortMessage: seq<byte>, params: seq<OptionalParameter>,
                              sourceAddr: GoString)
    returns (receipt: Receipt)
    ensures receipt == Parsed(parse, shortMessage, params, sourceAddr)
  {
    var messageID := ParseWord(shortMessage, ID + [COLON]);
    var status := ParseWord(shortMessage, STAT + [COLON]);
    var submitTime := ParseTime(parse, shortMessage, SUBMIT_DATE + [COLON]);
    var doneTime := ParseTime(parse, shortMessage, DONE_DATE + [COLON]);
    if messageID == [] {
      var i := 0;
      while i < |params| && params[i].tag != RECEIPTED_MESSAGE_ID
        invariant i <= |params|
        invariant FirstValue(params, RECEIPTED_MESSAGE_ID) == FirstValue(params[i..], RECEIPTED_MESSAGE_ID)
      {
        i := i + 1;
      }
      if i < |params| {
        messageID := params[i].value;
      }
    }
    if messageID == [] {
      messageID := sourceAddr;
    }
    receipt := Receipt(messageID, status, submitTime, doneTime, doneTime);
  }

  // ---------------------------------------------------------------- where the labels stand

  /** A label found in the ID hides the receipt's own. */
  lemma IDFirst(id: GoString, rest: GoString, q: GoString)
    requires q != [] && COLON !in q && !EndsWith(ID, q) && CannotCross(q + [COLON], rest)
    ensures Following(Labelled(ID, id + rest), q + [COLON]) ==
            var f := Following(id, q + [COLON]); if f.Some? then Some(f.value + rest) else Following(rest, q + [COLON])
  {
    Plain();
    SkipLabel(ID, id + rest, q);
    FollowingWord(id, rest, q + [COLON]);
  }

  predicate Skips(x: GoString, q: GoString) {
    COLON !in x && COLON !in q && q != [] && !EndsWith(x, q)
  }

  predicate Finds(x: GoString, q: GoString) {
    COLON !in x && COLON !in q && q != [] && EndsWith(x, q)
  }

  lemma SkipThree(x: GoString, y: GoString, z: GoString, rest: GoString, q: GoString)
    requires Skips(x, q) && Skips(y, q)
    ensures Skips(z, q) ==>
              Following(Labelled(x, Labelled(y, Labelled(z, rest))), q + [COLON]) == Following(rest, q + [COLON])
    ensures Finds(z, q) ==> Following(Labelled(x, Labelled(y, Labelled(z, rest))), q + [COLON]) == Some(rest)
  {
    SkipLabel(x, Labelled(y, Labelled(z, rest)), q);
    SkipLabel(y, Labelled(z, rest), q);
    if Skips(z, q) {
      SkipLabel(z, rest, q);
    } else if Finds(z, q) {
      FindLabel(z, rest, q);
    }
  }

  /** A value in front of a label: what the label does not show, the value does not either. */
  lemma ValueAndLabel(value: GoString, x: GoString, rest: GoString, q: GoString)
    requires COLON !in value && |q| <= |x|
    ensures Skips(x, q) ==> Following(value + Labelled(x, rest), q + [COLON]) == Following(rest, q + [COLON])
    ensures Finds(x, q) ==> Following(value + Labelled(x, rest), q + [COLON]) == Some(rest)
  {
    var s := value + x;
    assert value + Labelled(x, rest) == s + [COLON] + rest;
    assert s[|s| - |q|..] == x[|x| - |q|..];
    if Skips(x, q) {
      SkipLabel(s, rest, q);
    } else if Finds(x, q) {
      FindLabel(s, rest, q);
    }
  }

  lemma Plain()
    ensures COLON !in ID && COLON !in STAT && COLON !in Ascii(" sub") && COLON !in Ascii("001 dlvrd")
  {
  }

  lemma PlainDates()
    ensures COLON !in SUBMIT_DATE && COLON !in Ascii("001 ") + SUBMIT_DATE && COLON !in DONE_DATE
  {
  }

  lemma NotEnding(x: GoString, q: GoString, i: nat)
    requires i < |q| <= |x| && x[|x| - |q| + i] != q[i]
    ensures !EndsWith(x, q)
  {
    assert x[|x| - |q|..][i] != q[i];
  }

  lemma Ending(y: GoString, q: GoString)
    ensures EndsWith(y + q, q)
  {
  }

  lemma SubmitDateLabels()
    ensures !EndsWith(ID, SUBMIT_DATE) && !EndsWith(Ascii(" sub"), SUBMIT_DATE)
    ensures !EndsWith(Ascii("001 dlvrd"), SUBMIT_DATE) && EndsWith(Ascii("001 ") + SUBMIT_DATE, SUBMIT_DATE)
  {
    Ending(Ascii("001 "), SUBMIT_DATE);
  }

  lemma NotDoneDate(x: GoString)
    requires |x| >= 9 && x[|x| - 9] != 'd' as int
    ensures !EndsWith(x, DONE_DATE)
  {
    NotEnding(x, DONE_DATE, 0);
  }

  lemma DoneDateLabels()
    ensures !EndsWith(ID, DONE_DATE) && !EndsWith(Ascii(" sub"), DONE_DATE)
    ensures !EndsWith(Ascii("001 dlvrd"), DONE_DATE)
  {
    NotDoneDate(Ascii("001 dlvrd"));
  }

  lemma DoneAfterDates()
    ensures !EndsWith(Ascii("001 ") + SUBMIT_DATE, DONE_DATE) && EndsWith([SPACE] + DONE_DATE, DONE_DATE)
  {
    NotDoneDate(Ascii("001 ") + SUBMIT_DATE);
    Ending([SPACE], DONE_DATE);
  }

  lemma NotStat(x: GoString)
    requires |x| >= 4 && x[|x| - 4] != 's' as int
    ensures !EndsWith(x, STAT)
  {
    NotEnding(x, STAT, 0);
  }

  lemma SubNotStat()
    ensures !EndsWith(Ascii(" sub"), STAT)
  {
    NotStat(Ascii(" sub"));
  }

  lemma DlvrdNotStat()
    ensures !EndsWith(Ascii("001 dlvrd"), STAT)
  {
    NotStat(Ascii("001 dlvrd"));
  }

  lemma StatAfterDates()
    ensures !EndsWith(Ascii("001 ") + SUBMIT_DATE, STAT) && !EndsWith([SPACE] + DONE_DATE, STAT)
    ensures EndsWith([SPACE] + STAT, STAT)
  {
    NotStat(Ascii("001 ") + SUBMIT_DATE);
    NotStat([SPACE] + DONE_DATE);
    Ending([SPACE], STAT);
  }

  /** Where each label's value stands in the receipt behind the ID. */
  lemma ValuesInRemainder(sd: GoString, dd: GoString, status: GoString, text: GoString)
    requires COLON !in sd && COLON !in dd
    ensures Following(Remainder(sd, dd, status, text), SUBMIT_DATE + [COLON]) == Some(sd + FromDone(dd, status, text))
    ensures Following(Remainder(sd, dd, status, text), DONE_DATE + [COLON]) == Some(dd + FromStat(status, text))
    ensures Following(Remainder(sd, dd, status, text), STAT + [COLON]) == Some(status + Tail(text))
  {
    SubmitDateValue(sd + FromDone(dd, status, text));
    DoneDateValue(sd, dd + FromStat(status, text));
    StatValue(sd, dd, status + Tail(text));
  }

  lemma SubmitDateValue(rest: GoString)
    ensures Following(ThreeLabels(rest), SUBMIT_DATE + [COLON]) == Some(rest)
  {
    Plain();
    PlainDates();
    SubmitDateLabels();
    SkipThree(Ascii(" sub"), Ascii("001 dlvrd"), Ascii("001 ") + SUBMIT_DATE, rest, SUBMIT_DATE);
  }

  lemma DoneDateValue(sd: GoString, rest: GoString)
    requires COLON !in sd
    ensures Following(ThreeLabels(sd + Labelled([SPACE] + DONE_DATE, rest)), DONE_DATE + [COLON]) == Some(rest)
  {
    Plain();
    PlainDates();
    DoneDateLabels();
    DoneAfterDates();
    var q := DONE_DATE;
    SkipThree(Ascii(" sub"), Ascii("001 dlvrd"), Ascii("001 ") + SUBMIT_DATE, sd + Labelled([SPACE] + DONE_DATE, rest), q);
    ValueAndLabel(sd, [SPACE] + DONE_DATE, rest, q);
  }

  lemma StatValue(sd: GoString, dd: GoString, rest: GoString)
    requires COLON !in sd && COLON !in dd
    ensures Following(ThreeLabels(sd + Labelled([SPACE] + DONE_DATE, dd + Labelled([SPACE] + STAT, rest))),
                      STAT + [COLON]) == Some(rest)
  {
    Plain();
    PlainDates();
    SubNotStat();
    DlvrdNotStat();
    StatAfterDates();
    var q, behind := STAT, dd + Labelled([SPACE] + STAT, rest);
    SkipThree(Ascii(" sub"), Ascii("001 dlvrd"), Ascii("001 ") + SUBMIT_DATE, sd + Labelled([SPACE] + DONE_DATE, behind), q);
    ValueAndLabel(sd, [SPACE] + DONE_DATE, behind, q);
    ValueAndLabel(dd, [SPACE] + STAT, rest, q);
  }

  lemma SubmitDateCannotCross(rest: GoString)
    requires |rest| >= 2 && rest[0] == SPACE && rest[1] == 's' as int
    ensures CannotCross(SUBMIT_DATE + [COLON], rest)
  {
    var p := SUBMIT_DATE + [COLON];
    assert forall i | 0 <= i < |SUBMIT_DATE| && SUBMIT_DATE[i] == SPACE :: i == 6;
    assert p[7] == SUBMIT_DATE[7] == 'd' as int;
  }

  lemma DoneDateCannotCross(rest: GoString)
    requires |rest| >= 2 && rest[0] == SPACE && rest[1] == 's' as int
    ensures CannotCross(DONE_DATE + [COLON], rest)
  {
    var p := DONE_DATE + [COLON];
    assert forall i | 0 <= i < |DONE_DATE| && DONE_DATE[i] == SPACE :: i == 4;
    assert p[5] == DONE_DATE[5] == 'd' as int;
  }

  lemma StatCannotCross(rest: GoString)
    requires |rest| >= 2 && rest[0] == SPACE
    ensures CannotCross(STAT + [COLON], rest)
  {
    assert forall i | 0 <= i < |STAT| :: STAT[i] != SPACE;
  }

  lemma RemainderStart(rest: GoString)
    ensures |ThreeLabels(rest)| >= 10 && ThreeLabels(rest)[0] == SPACE && ThreeLabels(rest)[1] == 's' as int
  {
    var sub := Ascii(" sub");
    assert ThreeLabels(rest)[0] == sub[0] && ThreeLabels(rest)[1] == sub[1];
  }

  // ---------------------------------------------------------------- reading a printed receipt

  lemma IDReadBack(id: GoString, rest: GoString)
    requires rest != [] && rest[0] == SPACE
    ensures WordIn(Following(Labelled(ID, id + rest), ID + [COLON])) != []
    ensures WordIn(Following(Labelled(ID, id + rest), ID + [COLON])) == id <==> id != [] && SPACE !in id
  {
    Plain();
    Ending([], ID);
    assert [] + ID == ID;
    FindLabel(ID, id + rest, ID);
    WordExactly(id, rest);
  }

  /** The ID keeps its hands off a field when the label does not occur in it, or when what stands
      behind the label there is what the field says anyway. */
  predicate LeavesWord(id: GoString, name: GoString, word: GoString) {
    var f := Following(id, name + [COLON]);
    f.Some? ==> FirstWord(f.value) == word
  }

  predicate LeavesTime(parse: GoString -> Option<int>, id: GoString, name: GoString, date: GoString) {
    var f := Following(id, name + [COLON]);
    f.Some? ==> |f.value| >= 10 && parse(f.value[..10]) == parse(date)
  }

  lemma StatusReadBack(id: GoString, rest: GoString, status: GoString, tail: GoString)
    requires status != [] && SPACE !in status
    requires |rest| >= 2 && rest[0] == SPACE && tail != [] && tail[0] == SPACE
    requires Following(rest, STAT + [COLON]) == Some(status + tail)
    ensures WordIn(Following(Labelled(ID, id + rest), STAT + [COLON])) == status <==> LeavesWord(id, STAT, status)
  {
    Plain();
    StatCannotCross(rest);
    IDFirst(id, rest, STAT);
    var f := Following(id, STAT + [COLON]);
    if f.Some? {
      FirstWordExactly(f.value, rest, status);
    } else {
      WordExactly(status, tail);
    }
  }

  lemma TimeReadBack(parse: GoString -> Option<int>, id: GoString, rest: GoString, name: GoString, date: GoString,
                     tail: GoString)
    requires name != [] && COLON !in name && !EndsWith(ID, name) && CannotCross(name + [COLON], rest)
    requires |rest| >= 10 && rest[0] == SPACE && TakesDates(parse) && parse(date).Some?
    requires Following(rest, name + [COLON]) == Some(date + tail)
    ensures TimeIn(parse, Following(Labelled(ID, id + rest), name + [COLON])) == parse(date) <==>
            LeavesTime(parse, id, name, date)
  {
    Plain();
    IDFirst(id, rest, name);
    var f := Following(id, name + [COLON]);
    if f.Some? {
      TimeExactly(parse, f.value, rest, date);
    } else {
      assert (date + tail)[..10] == date;
    }
  }

  /** Every field of a printed receipt is read back by the client exactly when the message ID lets it:
      the ID when it is a word; the others when the ID plants no other value in front of theirs. */
  lemma ReceiptExactly(parse: GoString -> Option<int>, m: Message, status: MessageStatus, submitDate: GoString,
                       doneDate: GoString, params: seq<OptionalParameter>, sourceAddr: GoString)
    requires TakesDates(parse) && parse(submitDate).Some? && parse(doneDate).Some?
    ensures
      var report := GenerateDeliveryReport(m, status, submitDate, doneDate);
      var read := Parsed(parse, report.text, params, sourceAddr);
      && (read.messageID == report.messageID <==> m.id != [] && SPACE !in m.id)
      && (read.status == report.status <==> LeavesWord(m.id, STAT, StatusWord(status)))
      && (read.submitTime == parse(report.submitDate) <==> LeavesTime(parse, m.id, SUBMIT_DATE, submitDate))
      && (read.doneTime == parse(report.doneDate) <==> LeavesTime(parse, m.id, DONE_DATE, doneDate))
  {
    var word, text := StatusWord(status), ReportText(m.text);
    var rest := Remainder(submitDate, doneDate, word, text);
    assert IsDate(submitDate) && IsDate(doneDate);
    RemainderStart(submitDate + FromDone(doneDate, word, text));
    ValuesInRemainder(submitDate, doneDate, word, text);
    IDReadBack(m.id, rest);
    TailStart(text);
    StatusReadBack(m.id, rest, word, Tail(text));
    PlainDates();
    SubmitDateLabels();
    SubmitDateCannotCross(rest);
    TimeReadBack(parse, m.id, rest, SUBMIT_DATE, submitDate, FromDone(doneDate, word, text));
    DoneDateLabels();
    DoneDateCannotCross(rest);
    TimeReadBack(parse, m.id, rest, DONE_DATE, doneDate, FromStat(word, text));
  }

  lemma TailStart(text: GoString)
    ensures Tail(text) != [] && Tail(text)[0] == SPACE
  {
    var err := Ascii(" err");
    assert Tail(text)[0] == err[0];
  }

  /** An ID without spaces or colons never gets in the way, whatever the message says. */
  lemma PlainIDReadBack(parse: GoString -> Option<int>, m: Message, status: MessageStatus, submitDate: GoString,
                        doneDate: GoString, params: seq<OptionalParameter>, sourceAddr: GoString)
    requires TakesDates(parse) && parse(submitDate).Some? && parse(doneDate).Some?
    requires m.id != [] && SPACE !in m.id && COLON !in m.id
    ensures Parsed(parse, GenerateDeliveryReport(m, status, submitDate, doneDate).text, params, sourceAddr)
         == Receipt(m.id, StatusWord(status), parse(submitDate), parse(doneDate), parse(doneDate))
  {
    NoLabelInside(m.id, STAT);
    NoLabelInside(m.id, SUBMIT_DATE);
    NoLabelInside(m.id, DONE_DATE);
    ReceiptExactly(parse, m, status, submitDate, doneDate, params, sourceAddr);
  }

  /** The ID "stat:X" plants a status of its own. */
  lemma PlantedStatus(parse: GoString -> Option<int>, m: Message, status: MessageStatus, submitDate: GoString,
                      doneDate: GoString, params: seq<OptionalParameter>, sourceAddr: GoString)
    requires TakesDates(parse) && parse(submitDate).Some? && parse(doneDate).Some?
    requires m.id == STAT + [COLON] + Ascii("X")
    ensures var read := Parsed(parse, GenerateDeliveryReport(m, status, submitDate, doneDate).text, params, sourceAddr);
            read.status != StatusWord(status)
  {
    Plain();
    Ending([], STAT);
    assert [] + STAT == STAT;
    FindLabel(STAT, Ascii("X"), STAT);
    ReceiptExactly(parse, m, status, submitDate, doneDate, params, sourceAddr);
  }

  /** The ID "a b" loses its second word. */
  lemma SpacedID(parse: GoString -> Option<int>, m: Message, status: MessageStatus, submitDate: GoString,
                 doneDate: GoString, params: seq<OptionalParameter>, sourceAddr: GoString)
    requires TakesDates(parse) && parse(submitDate).Some? && parse(doneDate).Some?
    requires m.id == Ascii("a") + [SPACE] + Ascii("b")
    ensures var read := Parsed(parse, GenerateDeliveryReport(m, status, submitDate, doneDate).text, params, sourceAddr);
            read.messageID != m.id
  {
    assert m.id[1] == SPACE;
    ReceiptExactly(parse, m, status, submitDate, doneDate, params, sourceAddr);
  }

  lemma NoLabelInside(id: GoString, name: GoString)
    requires COLON !in id
    ensures Following(id, name + [COLON]) == None
  {
    var p := name + [COLON];
    IndexIsFirst(id, p);
    forall k: nat ensures !OccursAt(id, p, k) {
      if k + |p| <= |id| {
        assert id[k + |name|] in id;
        assert id[k..k + |p|][|name|] == id[k + |name|] && p[|name|] == COLON;
      }
    }
  }

  // ---------------------------------------------------------------- the receipt spelled out

  lemma ColonBehind(tag: GoString, whole: GoString, rest: GoString)
    requires whole == tag + [COLON]
    ensures Labelled(tag, rest) == whole + rest
  {
  }

  lemma ShortLabels()
    ensures Ascii("id:") == ID + [COLON] && Ascii(" stat:") == [SPACE] + STAT + [COLON]
    ensures Ascii(" sub:") == Ascii(" sub") + [COLON] && Ascii(" err:") == Ascii(" err") + [COLON]
  {
  }

  lemma DlvrdLabel()
    ensures Ascii("001 dlvrd:") == Ascii("001 dlvrd") + [COLON]
  {
  }

  lemma TextLabel()
    ensures Ascii("000 text:") == Ascii("000 text") + [COLON]
  {
  }

  lemma SubmitLabel()
    ensures Ascii("001 submit date:") == Ascii("001 ") + SUBMIT_DATE + [COLON]
  {
  }

  lemma DoneLabel()
    ensures Ascii(" done date:") == [SPACE] + DONE_DATE + [COLON]
  {
  }

  lemma TailSpelled(text: GoString)
    ensures Tail(text) == Ascii(" err:") + (Ascii("000 text:") + text)
  {
    ShortLabels();
    TextLabel();
    ColonBehind(Ascii("000 text"), Ascii("000 text:"), text);
    ColonBehind(Ascii(" err"), Ascii(" err:"), Labelled(Ascii("000 text"), text));
  }

  lemma FrontSpelled(rest: GoString)
    ensures ThreeLabels(rest) == Ascii(" sub:") + (Ascii("001 dlvrd:") + (Ascii("001 submit date:") + rest))
  {
    ShortLabels();
    DlvrdLabel();
    SubmitLabel();
    ColonBehind(Ascii("001 ") + SUBMIT_DATE, Ascii("001 submit date:"), rest);
    ColonBehind(Ascii("001 dlvrd"), Ascii("001 dlvrd:"), Labelled(Ascii("001 ") + SUBMIT_DATE, rest));
    ColonBehind(Ascii(" sub"), Ascii(" sub:"), Labelled(Ascii("001 dlvrd"), Labelled(Ascii("001 ") + SUBMIT_DATE, rest)));
  }

  lemma DatesSpelled(doneDate: GoString, word: GoString, text: GoString)
    ensures FromDone(doneDate, word, text) ==
            Ascii(" done date:") + (doneDate + (Ascii(" stat:") + (word + Tail(text))))
  {
    ShortLabels();
    DoneLabel();
    ColonBehind([SPACE] + STAT, Ascii(" stat:"), word + Tail(text));
    ColonBehind([SPACE] + DONE_DATE, Ascii(" done date:"), doneDate + FromStat(word, text));
  }

  function SpelledFront(id: GoString, submitDate: GoString, rest: GoString): GoString {
    Ascii("id:") + (id + (Ascii(" sub:") + (Ascii("001 dlvrd:") + (Ascii("001 submit date:") + (submitDate + rest)))))
  }

  function SpelledBack(doneDate: GoString, word: GoString, text: GoString): GoString {
    Ascii(" done date:") + (doneDate + (Ascii(" stat:") + (word + (Ascii(" err:") + (Ascii("000 text:") + text)))))
  }

  /** The text in full; a message text above 20 bytes is cut to 17 and three dots. */
  lemma ReceiptSpelled(m: Message, status: MessageStatus, submitDate: GoString, doneDate: GoString)
    ensures var report := GenerateDeliveryReport(m, status, submitDate, doneDate);
            var shown := if |m.text| > 20 then m.text[..17] + Ascii("...") else m.text;
            && report.messageID == m.id && report.submitDate == submitDate && report.doneDate == doneDate
            && report.status == StatusWord(status) && report.error == Ascii("000")
            && report.text == SpelledFront(m.id, submitDate, SpelledBack(doneDate, StatusWord(status), shown))
  {
    var word, text := StatusWord(status), ReportText(m.text);
    TailSpelled(text);
    DatesSpelled(doneDate, word, text);
    FrontSpelled(submitDate + FromDone(doneDate, word, text));
    ShortLabels();
    ColonBehind(ID, Ascii("id:"), m.id + Remainder(submitDate, doneDate, word, text));
  }

  /** The status words. */
  lemma StatusWords()
    ensures StatusWord(Delivered) == Ascii("DELIVRD") && StatusWord(Expired) == Ascii("EXPIRED")
    ensures StatusWord(Deleted) == Ascii("DELETED") && StatusWord(Undeliverable) == Ascii("UNDELIV")
    ensures StatusWord(Accepted) == Ascii("ACCEPTD") && StatusWord(Rejected) == Ascii("REJECTD")
    ensures forall s | s in {Submitted, Enroute, Unknown, Split} :: StatusWord(s) == Ascii("UNKNOWN")
  {
  }

  /** The status a word stands for, once the case has been put up. */
  function StatusOfWord(upper: GoString -> GoString, word: GoString): MessageStatus {
    var w := upper(word);
    if w == Ascii("DELIVRD") then Delivered
    else if w == Ascii("EXPIRED") then Expired
    else if w == Ascii("DELETED") then Deleted
    else if w == Ascii("UNDELIV") then Undeliverable
    else if w == Ascii("ACCEPTD") then Accepted
    else if w == Ascii("REJECTD") then Rejected
    else Unknown
  }

  /** `strings.ToUpper` leaves capital letters alone. */
  ghost predicate KeepsCapitals(upper: GoString -> GoString) {
    forall w | AllCapitals(w) :: upper(w) == w
  }

  predicate AllCapitals(w: GoString) {
    forall i | 0 <= i < |w| :: 'A' as int <= w[i] <= 'Z' as int
  }

  lemma WordsAreCapitals(status: MessageStatus)
    ensures AllCapitals(StatusWord(status))
  {
  }

  /** The first and the fourth letter tell the words apart. */
  predicate Marked(w: GoString, first: char, fourth: char) {
    |w| == 7 && w[0] == first as int && w[3] == fourth as int
  }

  lemma WordsApart()
    ensures Marked(Ascii("DELIVRD"), 'D', 'I') && Marked(Ascii("EXPIRED"), 'E', 'I')
    ensures Marked(Ascii("DELETED"), 'D', 'E') && Marked(Ascii("UNDELIV"), 'U', 'E')
    ensures Marked(Ascii("ACCEPTD"), 'A', 'E') && Marked(Ascii("REJECTD"), 'R', 'E')
    ensures Marked(Ascii("UNKNOWN"), 'U', 'N')
  {
  }

  /** A status with a word of its own survives being printed and read; the others come back as unknown. */
  lemma StatusRoundTrip(upper: GoString -> GoString, status: MessageStatus)
    requires KeepsCapitals(upper)
    ensures StatusOfWord(upper, StatusWord(status)) == status <==> status !in {Submitted, Enroute, Split}
    ensures status in {Submitted, Enroute, Split} ==> StatusOfWord(upper, StatusWord(status)) == Unknown
  {
    WordsAreCapitals(status);
    WordsApart();
    StatusWords();
  }

  // ---------------------------------------------------------------- where the ID comes from

  lemma {:induction false} FirstValueExactly(params: seq<OptionalParameter>, tag: uint16, k: nat)
    requires k <= |params| && forall i | 0 <= i < k :: params[i].tag != tag
    ensures k == |params| ==> FirstValue(params, tag) == []
    ensures k < |params| && params[k].tag == tag ==> FirstValue(params, tag) == params[k].value
  {
    if k > 0 {
      FirstValueExactly(params[1..], tag, k - 1);
    }
  }

  /** A text without an ID: it is taken from the first TLV 0x001E, and from the source address when there
      is none or it is empty. */
  lemma IDFromElsewhere(parse: GoString -> Option<int>, text: GoString, params: seq<OptionalParameter>,
                        sourceAddr: GoString, k: nat)
    requires Following(text, ID + [COLON]) in {None, Some([])}
    requires k <= |params| && forall i | 0 <= i < k :: params[i].tag != 0x001E
    requires k < |params| ==> params[k].tag == 0x001E
    ensures Parsed(parse, text, params, sourceAddr).messageID ==
            if k < |params| && params[k].value != [] then params[k].value else sourceAddr
  {
    FirstValueExactly(params, 0x001E, k);
    assert Index([], [SPACE]) == -1;
  }
}
