/** The loop of one connection from the octets on: PDUs are read off the stream, handled and
    answered until a read fails, the session ends or the context is cancelled. */
module Serving {
  import opened GoStrings
  import opened Results
  import Codec
  import opened Sessions

  /** What the authenticator, the message handler and the connection will answer in one turn. */
  datatype Outcome = Outcome(authOk: bool, handlerOk: bool, sendOk: bool)

  function RequestOf(p: Codec.PDU): Request {
    match p.body
    case BindRequest(b) => Request(p.header.commandID, p.header.sequenceNum, b.systemID, b.password, b.systemType)
    case _ => Request(p.header.commandID, p.header.sequenceNum, [], [], [])
  }

  function EventOf(p: Codec.PDU, o: Outcome): Event {
    Event(RequestOf(p), o.authOk, o.handlerOk, o.sendOk)
  }

  /** The PDUs on a stream up to the first read that fails. */
  function Frames(stream: seq<byte>): seq<Codec.PDU>
    decreases |stream|
  {
    var f := Codec.ReadFrame(stream);
    if f.result.Ok? then [f.result.value] + Frames(f.rest) else []
  }

  /** The PDUs handled, one a turn; the context is cancelled when there are no more turns. */
  function Events(pdus: seq<Codec.PDU>, outcomes: seq<Outcome>): (events: seq<Event>)
    ensures |events| == if |pdus| < |outcomes| then |pdus| else |outcomes|
    ensures forall i | 0 <= i < |events| :: events[i] == EventOf(pdus[i], outcomes[i])
  {
    seq(if |pdus| < |outcomes| then |pdus| else |outcomes|,
        i requires 0 <= i < |pdus| && i < |outcomes| => EventOf(pdus[i], outcomes[i]))
  }

  lemma LifeStep(events: seq<Event>, k: nat)
    requires k < |events|
    ensures After(events[..k + 1]) == LoopStep(After(events[..k]), events[k])
  {
    assert events[..k + 1][..k] == events[..k];
  }

  lemma FrameAt(frames: seq<Codec.PDU>, k: nat, stream: seq<byte>)
    requires k <= |frames| && Frames(stream) == frames[k..]
    ensures Codec.ReadFrame(stream).result.Ok? <==> k < |frames|
    ensures k < |frames| ==> Codec.ReadFrame(stream).result == Ok(frames[k])
    ensures k < |frames| ==> Frames(Codec.ReadFrame(stream).rest) == frames[k + 1..]
  {
    var f := Codec.ReadFrame(stream);
    if f.result.Ok? {
      assert Frames(stream)[0] == f.result.value && Frames(stream)[1..] == Frames(f.rest);
      assert frames[k..][1..] == frames[k + 1..];
    }
  }

  /** connectionLifecycle.  A read that times out fails like any other: the error is wrapped before
      its kind is asked for. */
  method ConnectionLifecycle(reader: Codec.Reader, outcomes: seq<Outcome>)
    returns (session: Session, log: seq<Action>, processed: nat)
    modifies reader
    ensures var life := After(Events(Frames(old(reader.data)), outcomes));
            life.session == session.View() && life.log == log && life.processed == processed
  {
    session := new Session();
    log, processed := [], 0;
    ghost var frames := Frames(reader.data);
    ghost var events := Events(frames, outcomes);
    assert frames[0..] == frames && events[..0] == [];
    while processed < |outcomes|
      invariant processed <= |events| && Frames(reader.data) == frames[processed..]
      invariant After(events[..processed]) == Life(session.View(), log, processed, false)
    {
      FrameAt(frames, processed, reader.data);
      var pdu := Codec.DecodeFromReader(reader);
      if pdu.Err? {
        assert events[..processed] == events;
        return;
      }
      LifeStep(events, processed);
      var actions, done := Serve(session, EventOf(pdu.value, outcomes[processed]), After(events[..processed]));
      log, processed := log + actions, processed + 1;
      if done {
        DoneStays(events, processed);
        return;
      }
    }
    assert events[..processed] == events;
  }

  // ---------------------------------------------------------------- from octets to answers

  /** The command IDs that the decoder makes a body for. */
  predicate IsDecodable(commandID: uint32) {
    Codec.CreatePDUBody(commandID).Ok?
  }

  lemma {:induction false} FramesAreDecodable(stream: seq<byte>)
    ensures forall p | p in Frames(stream) :: IsDecodable(p.header.commandID)
    decreases |stream|
  {
    var f := Codec.ReadFrame(stream);
    if f.result.Ok? {
      FramesAreDecodable(f.rest);
      assert Codec.ReadRaw(stream).result.Ok?;
    }
  }

  lemma {:induction false} HandledIsHistory(history: seq<Event>, c: uint32)
    requires Handled(c) in HistoryLog(history)
    ensures exists k :: 0 <= k < |history| && history[k].pdu.commandID == c && IsGuarded(c)
  {
    var n := |history| - 1;
    if Handled(c) in HistoryLog(history[..n]) {
      HandledIsHistory(history[..n], c);
      var k :| 0 <= k < n && history[..n][k].pdu.commandID == c && IsGuarded(c);
      assert history[k].pdu.commandID == c;
    } else {
      assert Handled(c) in HistoryActions(history[..n], history[n]);
      assert history[n].pdu.commandID == c;
    }
  }

  lemma {:induction false} HandledIsTaken(events: seq<Event>, c: uint32)
    requires Handled(c) in After(events).log
    ensures IsGuarded(c) && exists k :: 0 <= k < |events| && events[k].pdu.commandID == c
  {
    ServerFollowsHistory(events);
    var taken := events[..After(events).processed];
    HandledIsHistory(taken, c);
    var k :| 0 <= k < |taken| && taken[k].pdu.commandID == c && IsGuarded(c);
    assert events[k] == taken[k];
  }

  lemma EventsAreDecodable(stream: seq<byte>, outcomes: seq<Outcome>, k: nat)
    requires k < |Events(Frames(stream), outcomes)|
    ensures IsDecodable(Events(Frames(stream), outcomes)[k].pdu.commandID)
  {
    FramesAreDecodable(stream);
    var p := Frames(stream)[k];
    assert p in Frames(stream) && RequestOf(p).commandID == p.header.commandID;
  }

  lemma GuardedAndDecodable(c: uint32)
    ensures IsGuarded(c) && IsDecodable(c) <==> c == SUBMIT_SM
  {
  }

  /** Of the commands the server knows how to hand on, only submit_sm ever gets to the message handler:
      the decoder refuses the others. */
  lemma OnlySubmitsAreHandled(stream: seq<byte>, outcomes: seq<Outcome>, c: uint32)
    requires Handled(c) in After(Events(Frames(stream), outcomes)).log
    ensures c == SUBMIT_SM
  {
    var events := Events(Frames(stream), outcomes);
    HandledIsTaken(events, c);
    var k :| 0 <= k < |events| && events[k].pdu.commandID == c;
    EventsAreDecodable(stream, outcomes, k);
    GuardedAndDecodable(c);
  }

  /** A frame whose command the decoder refuses ends the connection: nothing behind it is read, and it is
      not answered, not even with a generic_nack. */
  lemma UndecodableEndsConnection(h: Codec.PDUHeader, body: seq<byte>, tail: seq<byte>, outcomes: seq<Outcome>)
    requires h.commandLength == 16 + |body| && !IsDecodable(h.commandID)
    ensures Frames(Codec.HeaderBytes(h) + body + tail) == []
    ensures After(Events(Frames(Codec.HeaderBytes(h) + body + tail), outcomes)) == Life(FRESH, [], 0, false)
  {
    Codec.FrameOfRaw(h, body, tail);
  }

  lemma {:induction false} FramesOfEncoded(ps: seq<Codec.PDU>, tail: seq<byte>)
    requires forall i | 0 <= i < |ps| :: Codec.LengthFits(ps[i])
    requires Codec.AllFit(ps)
    ensures Frames(Codec.EncodedStream(ps) + tail) == Codec.NormalisedAll(ps) + Frames(tail)
  {
    if ps == [] {
      assert Codec.EncodedStream(ps) + tail == tail;
    } else {
      var rest := Codec.EncodedStream(ps[1..]) + tail;
      Associate(Codec.Encoded(ps[0]), Codec.EncodedStream(ps[1..]), tail);
      Codec.AllFitCons(ps);
      FrameInFront(ps[0], rest);
      FramesOfEncoded(ps[1..], tail);
      Codec.NormalisedCons(ps);
      Associate([Codec.Normalised(ps[0])], Codec.NormalisedAll(ps[1..]), Frames(tail));
    }
  }

  lemma FrameInFront(p: Codec.PDU, rest: seq<byte>)
    requires Codec.LengthFits(p) && Codec.FitsWire(p.body)
    ensures Frames(Codec.Encoded(p) + rest) == [Codec.Normalised(p)] + Frames(rest)
  {
    Codec.FrameOfEncoded(p, rest);
  }

  lemma FramesOfStream(ps: seq<Codec.PDU>)
    requires forall i | 0 <= i < |ps| :: Codec.LengthFits(ps[i])
    requires Codec.AllFit(ps)
    ensures Frames(Codec.EncodedStream(ps)) == Codec.NormalisedAll(ps)
  {
    FramesOfEncoded(ps, []);
    NothingBehind(Codec.EncodedStream(ps), Codec.NormalisedAll(ps));
  }

  lemma NothingBehind(stream: seq<byte>, pdus: seq<Codec.PDU>)
    ensures stream + [] == stream && pdus + Frames([]) == pdus
  {
  }

  /** PDUs that fit, encoded one behind the other, are served as exactly those PDUs. */
  lemma EncodedAreServed(ps: seq<Codec.PDU>, outcomes: seq<Outcome>)
    requires forall i | 0 <= i < |ps| :: Codec.LengthFits(ps[i])
    requires Codec.AllFit(ps)
    ensures Events(Frames(Codec.EncodedStream(ps)), outcomes) == Events(Codec.NormalisedAll(ps), outcomes)
  {
    FramesOfStream(ps);
  }

  /** Whatever bind a client's header asks for, an encoded bind request that is authenticated binds
      the session as a transceiver. */
  lemma EveryBindIsTransceiver(p: Codec.PDU, o: Outcome)
    requires p.body.BindRequest? && Codec.FitsWire(p.body) && o.authOk
    ensures var s := After(Events(Frames(Codec.Encoded(p)), [o])).session;
            && s.state == BOUND_TRX && s.bindType == BIND_TRANSCEIVER
            && s.systemID == p.body.bind.systemID && s.password == p.body.bind.password
            && s.systemType == p.body.bind.systemType
  {
    Codec.BindsBecomeTransceiver(p, []);
    assert Codec.Encoded(p) + [] == Codec.Encoded(p);
    var events := Events(Frames(Codec.Encoded(p)), [o]);
    assert Frames(Codec.Encoded(p)) != [];
    LifeStep(events, 0);
    assert events[..1] == events && events[..0] == [];
  }

  // ---------------------------------------------------------------- sequence numbers

  /** The sequence numbers in the headers of the PDUs, responses to deliver_sm left out. */
  function HeaderNumbers(ps: seq<Codec.PDU>): seq<uint32> {
    if ps == [] then []
    else HeaderNumbers(ps[..|ps| - 1])
         + if ps[|ps| - 1].body.DeliverSMResp? then [] else [ps[|ps| - 1].header.sequenceNum]
  }

  lemma {:induction false} AskingIsHeaders(ps: seq<Codec.PDU>, outcomes: seq<Outcome>, k: nat)
    requires k <= |ps| && k <= |outcomes|
    ensures Asking(Events(Codec.NormalisedAll(ps), outcomes)[..k]) == HeaderNumbers(ps[..k])
  {
    if k > 0 {
      var events := Events(Codec.NormalisedAll(ps), outcomes);
      AskingIsHeaders(ps, outcomes, k - 1);
      assert events[..k][..k - 1] == events[..k - 1] && ps[..k][..k - 1] == ps[..k - 1];
      assert events[k - 1] == EventOf(Codec.Normalised(ps[k - 1]), outcomes[k - 1]);
      NumberKept(ps[k - 1]);
    }
  }

  lemma NumberKept(p: Codec.PDU)
    ensures var r := RequestOf(Codec.Normalised(p));
            r.sequence == p.header.sequenceNum && (r.commandID == DELIVER_SM_RESP <==> p.body.DeliverSMResp?)
  {
  }

  /** While sends succeed, the PDUs a client encodes that are taken in are answered once each, in order,
      under the sequence numbers of their own headers. */
  lemma HeadersAreAnswered(ps: seq<Codec.PDU>, outcomes: seq<Outcome>)
    requires forall i | 0 <= i < |ps| :: Codec.LengthFits(ps[i])
    requires Codec.AllFit(ps) && |outcomes| >= |ps| && forall i | 0 <= i < |outcomes| :: outcomes[i].sendOk
    ensures var l := After(Events(Frames(Codec.EncodedStream(ps)), outcomes));
            l.processed <= |ps| && Answered(l.log) == HeaderNumbers(ps[..l.processed])
  {
    EncodedAreServed(ps, outcomes);
    var events := Events(Codec.NormalisedAll(ps), outcomes);
    AnsweredOnceEach(events);
    AskingIsHeaders(ps, outcomes, After(events).processed);
  }
}
