/** The server side of a session: the bind handlers, the state-guarded handlers and the loop
    of connectionLifecycle, over any sequence of decoded PDUs. */
module Sessions {
  import opened GoStrings
  import opened Messages

  const BIND_RECEIVER: uint32 := 0x0000_0001
  const BIND_TRANSMITTER: uint32 := 0x0000_0002
  const QUERY_SM: uint32 := 0x0000_0003
  const SUBMIT_SM: uint32 := 0x0000_0004
  const UNBIND: uint32 := 0x0000_0006
  const REPLACE_SM: uint32 := 0x0000_0007
  const CANCEL_SM: uint32 := 0x0000_0008
  const BIND_TRANSCEIVER: uint32 := 0x0000_0009
  const ENQUIRE_LINK: uint32 := 0x0000_0015
  const SUBMIT_MULTI: uint32 := 0x0000_0021
  const DATA_SM: uint32 := 0x0000_0103
  const DELIVER_SM_RESP: uint32 := 0x8000_0005
  const GENERIC_NACK: uint32 := 0x8000_0000
  const RESPONSE_BIT: uint32 := 0x8000_0000

  const STATUS_OK: uint32 := 0x00
  const STATUS_INV_BND: uint32 := 0x04
  const STATUS_SYS_ERR: uint32 := 0x08
  const STATUS_INV_PASWD: uint32 := 0x0E

  datatype SessionState = OPEN | BOUND_TX | BOUND_RX | BOUND_TRX | UNBOUND | CLOSED

  /** A decoded PDU: its command ID, sequence number and, for binds, the credentials. */
  datatype Request = Request(
    commandID: uint32, sequence: uint32, systemID: GoString, password: GoString, systemType: GoString)

  /** A PDU together with what the authenticator, the message handler and the connection will
      answer when asked about it. */
  datatype Event = Event(pdu: Request, authOk: bool, handlerOk: bool, sendOk: bool)

  /** What the server does that others can see. */
  datatype Action =
    | Authenticated(bind: uint32, systemID: GoString, password: GoString, ok: bool)
    | Handled(commandID: uint32)
    | Sent(response: Response, sequence: uint32)

  /** The body of a response: the system ID of a bind, what the message handler returned, or no
      more than the server fills in itself. */
  datatype Content = SystemID(id: GoString) | FromHandler | Blank

  datatype Response = Response(commandID: uint32, status: uint32, content: Content)

  datatype SessionView = SessionView(
    state: SessionState, bindType: uint32, systemID: GoString, password: GoString, systemType: GoString, sequenceNum: uint32)

  predicate IsBind(commandID: uint32) {
    commandID == BIND_RECEIVER || commandID == BIND_TRANSMITTER || commandID == BIND_TRANSCEIVER
  }

  function BoundState(bind: uint32): SessionState
    requires IsBind(bind)
  {
    if bind == BIND_RECEIVER then BOUND_RX else if bind == BIND_TRANSMITTER then BOUND_TX else BOUND_TRX
  }

  /** The commands passed on to the message handler. */
  predicate IsGuarded(commandID: uint32) {
    || commandID == SUBMIT_SM || commandID == QUERY_SM || commandID == REPLACE_SM
    || commandID == CANCEL_SM || commandID == SUBMIT_MULTI || commandID == DATA_SM
  }

  predicate Permits(state: SessionState, commandID: uint32)
    requires IsGuarded(commandID)
  {
    if commandID == QUERY_SM then state == BOUND_RX || state == BOUND_TRX
    else state == BOUND_TX || state == BOUND_TRX
  }

  /** handlePDU: the new session, the actions on the way, and the response; an unknown command
      gets a generic_nack from the loop. */
  datatype Reply = Reply(session: SessionView, actions: seq<Action>, response: Option<Response>)

  function HandlerResponse(commandID: uint32, ok: bool): Response
    requires IsGuarded(commandID)
  {
    if ok then Response(commandID + RESPONSE_BIT, STATUS_OK, FromHandler)
    else Response(commandID + RESPONSE_BIT, STATUS_SYS_ERR, Blank)
  }

  function HandlePdu(s: SessionView, e: Event): Reply {
    var p, c := e.pdu, e.pdu.commandID;
    var t := s.(sequenceNum := (p.sequence + 1) % 0x1_0000_0000);
    if IsBind(c) then
      if e.authOk then
        Reply(t.(systemID := p.systemID, password := p.password, systemType := p.systemType,
                 bindType := c, state := BoundState(c)),
              [Authenticated(c, p.systemID, p.password, true)], Some(Response(c + RESPONSE_BIT, STATUS_OK, SystemID(p.systemID))))
      else Reply(t, [Authenticated(c, p.systemID, p.password, false)],
                 Some(Response(c + RESPONSE_BIT, STATUS_INV_PASWD, SystemID([]))))
    else if IsGuarded(c) then
      if !Permits(s.state, c) then Reply(t, [], Some(Response(c + RESPONSE_BIT, STATUS_INV_BND, Blank)))
      else Reply(t, [Handled(c)], Some(HandlerResponse(c, e.handlerOk)))
    else if c == DELIVER_SM_RESP then Reply(t, [], None)
    else if c == ENQUIRE_LINK then Reply(t, [], Some(Response(c + RESPONSE_BIT, STATUS_OK, Blank)))
    else if c == UNBIND then Reply(t.(state := UNBOUND), [], Some(Response(c + RESPONSE_BIT, STATUS_OK, Blank)))
    else Reply(t, [], Some(Response(GENERIC_NACK, STATUS_SYS_ERR, Blank)))
  }

  /** A connection so far: its session, everything the server did, how many PDUs it took in,
      and whether the loop has returned. */
  datatype Life = Life(session: SessionView, log: seq<Action>, processed: nat, done: bool)

  const FRESH: SessionView := SessionView(OPEN, 0, [], [], [], 1)

  predicate Ended(state: SessionState) {
    state == UNBOUND || state == CLOSED
  }

  /** One turn of the loop.  It returns when a send fails and, except after a generic_nack, when
      the session has ended. */
  function LoopStep(l: Life, e: Event): Life {
    if l.done then l
    else
      var r := HandlePdu(l.session, e);
      var log := l.log + r.actions;
      if r.response == None then Life(r.session, log, l.processed + 1, Ended(r.session.state))
      else if !e.sendOk then Life(r.session, log, l.processed + 1, true)
      else Life(r.session, log + [Sent(r.response.value, e.pdu.sequence)],
                l.processed + 1, r.response.value.commandID != GENERIC_NACK && Ended(r.session.state))
  }

  function After(events: seq<Event>): Life {
    if events == [] then Life(FRESH, [], 0, false)
    else LoopStep(After(events[..|events| - 1]), events[|events| - 1])
  }

  // ---------------------------------------------------------------- the code

  class Session {
    var systemID: GoString
    var password: GoString
    var systemType: GoString
    var bindType: uint32
    var state: SessionState
    var sequenceNum: uint32

    constructor ()
      ensures View() == FRESH
    {
      systemID, password, systemType, bindType, state, sequenceNum := [], [], [], 0, OPEN, 1;
    }

    function View(): SessionView
      reads this
    {
      SessionView(state, bindType, systemID, password, systemType, sequenceNum)
    }

    method HandleBind(e: Event) returns (actions: seq<Action>, response: Option<Response>)
      requires IsBind(e.pdu.commandID)
      modifies this
      ensures View() == HandlePdu(old(View()), e).session.(sequenceNum := old(sequenceNum))
      ensures actions == HandlePdu(old(View()), e).actions && response == HandlePdu(old(View()), e).response
    {
      var req := e.pdu;
      actions := [Authenticated(req.commandID, req.systemID, req.password, e.authOk)];
      if !e.authOk {
        return actions, Some(Response(req.commandID + RESPONSE_BIT, STATUS_INV_PASWD, SystemID([])));
      }
      systemID := req.systemID;
      password := req.password;
      systemType := req.systemType;
      bindType := req.commandID;
      state := BoundState(req.commandID);
      response := Some(Response(req.commandID + RESPONSE_BIT, STATUS_OK, SystemID(req.systemID)));
    }

    method HandleGuarded(e: Event) returns (actions: seq<Action>, response: Option<Response>)
      requires IsGuarded(e.pdu.commandID)
      ensures actions == HandlePdu(View(), e).actions && response == HandlePdu(View(), e).response
    {
      var c := e.pdu.commandID;
      if c == QUERY_SM {
        if state != BOUND_RX && state != BOUND_TRX {
          return [], Some(Response(c + RESPONSE_BIT, STATUS_INV_BND, Blank));
        }
      } else if state != BOUND_TX && state != BOUND_TRX {
        return [], Some(Response(c + RESPONSE_BIT, STATUS_INV_BND, Blank));
      }
      actions := [Handled(c)];
      if !e.handlerOk {
        return actions, Some(Response(c + RESPONSE_BIT, STATUS_SYS_ERR, Blank));
      }
      response := Some(Response(c + RESPONSE_BIT, STATUS_OK, FromHandler));
    }

    method Handle(e: Event) returns (actions: seq<Action>, response: Option<Response>)
      modifies this
      ensures Reply(View(), actions, response) == HandlePdu(old(View()), e)
    {
      var c := e.pdu.commandID;
      sequenceNum := (e.pdu.sequence + 1) % 0x1_0000_0000;
      if IsBind(c) {
        actions, response := HandleBind(e);
      } else if IsGuarded(c) {
        actions, response := HandleGuarded(e);
      } else if c == DELIVER_SM_RESP {
        actions, response := [], None;
      } else if c == ENQUIRE_LINK {
        actions, response := [], Some(Response(c + RESPONSE_BIT, STATUS_OK, Blank));
      } else if c == UNBIND {
        state := UNBOUND;
        actions, response := [], Some(Response(c + RESPONSE_BIT, STATUS_OK, Blank));
      } else {
        actions, response := [], Some(Response(GENERIC_NACK, STATUS_SYS_ERR, Blank));
      }
    }
  }

  /** One PDU in the loop; done says that the loop returns. */
  method Serve(session: Session, e: Event, ghost before: Life) returns (actions: seq<Action>, done: bool)
    requires !before.done && before.session == session.View()
    modifies session
    ensures LoopStep(before, e) == Life(session.View(), before.log + actions, before.processed + 1, done)
  {
    var response;
    actions, response := session.Handle(e);
    done := false;
    if response.Some? {
      if !e.sendOk {
        return actions, true;
      }
      Associate(before.log, actions, [Sent(response.value, e.pdu.sequence)]);
      actions := actions + [Sent(response.value, e.pdu.sequence)];
      if response.value.commandID == GENERIC_NACK {
        return actions, false;
      }
    }
    done := Ended(session.state);
  }

  lemma {:induction false} DoneStays(events: seq<Event>, k: nat)
    requires k <= |events| && After(events[..k]).done
    ensures After(events) == After(events[..k])
  {
    if k == |events| {
      assert events[..k] == events;
    } else {
      var n := |events| - 1;
      assert events[..n][..k] == events[..k];
      DoneStays(events[..n], k);
    }
  }

  // ---------------------------------------------------------------- what the history determines

  /** The last bind that authenticated. */
  function LastBind(history: seq<Event>): Option<Request> {
    if history == [] then None
    else
      var e := history[|history| - 1];
      if IsBind(e.pdu.commandID) && e.authOk then Some(e.pdu) else LastBind(history[..|history| - 1])
  }

  /** Whether the last bind that authenticated allows a guarded command: a transmitter or
      transceiver sends, a receiver or transceiver queries. */
  predicate BindAllows(bind: Option<Request>, commandID: uint32) {
    bind.Some? &&
    (bind.value.commandID == BIND_TRANSCEIVER
     || bind.value.commandID == if commandID == QUERY_SM then BIND_RECEIVER else BIND_TRANSMITTER)
  }

  predicate IsKnown(commandID: uint32) {
    IsBind(commandID) || IsGuarded(commandID) || commandID == ENQUIRE_LINK || commandID == UNBIND
  }

  /** The one response to a PDU, in terms of the PDUs before it. */
  function HistoryResponse(history: seq<Event>, e: Event): Action {
    var c := e.pdu.commandID;
    var status :=
      if IsBind(c) && !e.authOk then STATUS_INV_PASWD
      else if IsGuarded(c) && !BindAllows(LastBind(history), c) then STATUS_INV_BND
      else if (IsGuarded(c) && !e.handlerOk) || !IsKnown(c) then STATUS_SYS_ERR
      else STATUS_OK;
    var content :=
      if IsBind(c) then SystemID(if e.authOk then e.pdu.systemID else [])
      else if IsGuarded(c) && status == STATUS_OK then FromHandler
      else Blank;
    Sent(Response(if IsKnown(c) then c + RESPONSE_BIT else GENERIC_NACK, status, content), e.pdu.sequence)
  }

  /** The calls made to the authenticator and the message handler for a PDU. */
  function HistoryCalls(history: seq<Event>, e: Event): seq<Action> {
    var c := e.pdu.commandID;
    if IsBind(c) then [Authenticated(c, e.pdu.systemID, e.pdu.password, e.authOk)]
    else if IsGuarded(c) && BindAllows(LastBind(history), c) then [Handled(c)]
    else []
  }

  function HistoryActions(history: seq<Event>, e: Event): seq<Action> {
    HistoryCalls(history, e)
    + if e.pdu.commandID != DELIVER_SM_RESP && e.sendOk then [HistoryResponse(history, e)] else []
  }

  /** Everything the server should do for a history of PDUs, without any session state. */
  function HistoryLog(history: seq<Event>): seq<Action> {
    if history == [] then []
    else
      var before := history[..|history| - 1];
      HistoryLog(before) + HistoryActions(before, history[|history| - 1])
  }

  /** The PDUs after which the loop returns: an unbind, or one whose response cannot be sent. */
  predicate Stops(e: Event) {
    e.pdu.commandID == UNBIND || (e.pdu.commandID != DELIVER_SM_RESP && !e.sendOk)
  }

  /** A session that holds exactly what the last authenticated bind gave it, or that has been
      unbound since. */
  predicate HoldsBind(s: SessionView, bind: Option<Request>) {
    match bind
    case None => s.bindType == 0 && s.systemID == [] && s.password == [] && (s.state == OPEN || s.state == UNBOUND)
    case Some(p) =>
      && IsBind(p.commandID) && s.bindType == p.commandID
      && s.systemID == p.systemID && s.password == p.password && s.systemType == p.systemType
      && (s.state == BoundState(p.commandID) || s.state == UNBOUND)
  }

  /** One handler call, told from the history instead of the session. */
  lemma ReplyFollowsHistory(s: SessionView, history: seq<Event>, e: Event)
    requires HoldsBind(s, LastBind(history)) && s.state != UNBOUND
    ensures var r := HandlePdu(s, e);
            && r.actions == HistoryCalls(history, e)
            && (r.response == None <==> e.pdu.commandID == DELIVER_SM_RESP)
            && (r.response.Some? ==> HistoryResponse(history, e) ==
                                     Sent(r.response.value, e.pdu.sequence))
            && HoldsBind(r.session, LastBind(history + [e]))
            && (e.pdu.commandID == UNBIND <==> r.session.state == UNBOUND)
            && r.session.state != CLOSED
  {
    assert (history + [e])[..|history|] == history;
  }

  /** The server has done exactly what the history calls for, the session holds exactly the last
      authenticated bind, and it is unbound exactly if the history ends with an unbind. */
  predicate Follows(l: Life, history: seq<Event>) {
    && l.log == HistoryLog(history)
    && HoldsBind(l.session, LastBind(history))
    && (l.session.state == UNBOUND <==> history != [] && history[|history| - 1].pdu.commandID == UNBIND)
  }

  lemma StepFollowsHistory(l: Life, history: seq<Event>, e: Event)
    requires !l.done && Follows(l, history) && l.session.state != UNBOUND
    ensures Follows(LoopStep(l, e), history + [e])
  {
    var all := history + [e];
    assert all[..|history|] == history && all[|history|] == e;
    ReplyFollowsHistory(l.session, history, e);
    var calls := HistoryCalls(history, e);
    Associate(l.log, calls, [HistoryResponse(history, e)]);
    assert calls + [] == calls;
  }

  /** The loop takes PDUs up to the first one that stops it, and none after. */
  lemma {:induction false} TakesUntilStop(events: seq<Event>)
    ensures var l := After(events);
            && l.processed <= |events|
            && (forall k | 0 <= k < l.processed - 1 :: !Stops(events[k]))
            && (l.done <==> l.processed > 0 && Stops(events[l.processed - 1]))
            && (!l.done ==> l.processed == |events|)
            && (!l.done ==> l.session.state != UNBOUND && l.session.state != CLOSED)
  {
    if events != [] {
      var n := |events| - 1;
      TakesUntilStop(events[..n]);
      if After(events[..n]).done {
        assert forall k | 0 <= k < After(events[..n]).processed :: events[..n][k] == events[k];
      }
    }
  }

  /** Over every PDU sequence from OPEN: the server does exactly what the history of the PDUs
      taken in calls for, and the session holds exactly the last authenticated bind (failed
      rebinds change nothing) until an unbind ends it. */
  lemma {:induction false} ServerFollowsHistory(events: seq<Event>)
    ensures After(events).processed <= |events|
    ensures Follows(After(events), events[..After(events).processed])
  {
    TakesUntilStop(events);
    if events != [] {
      var n := |events| - 1;
      ServerFollowsHistory(events[..n]);
      TakesUntilStop(events[..n]);
      if After(events[..n]).done {
        assert events[..n][..After(events[..n]).processed] == events[..After(events).processed];
      } else {
        FollowsOneMore(After(events[..n]), events, n);
      }
    }
  }

  lemma FollowsOneMore(before: Life, events: seq<Event>, n: nat)
    requires |events| == n + 1 && !before.done && before.processed == n && before.session.state != UNBOUND
    requires Follows(before, events[..n][..n])
    ensures LoopStep(before, events[n]).processed == n + 1
    ensures Follows(LoopStep(before, events[n]), events[..n + 1])
  {
    assert events[..n][..n] == events[..n];
    StepFollowsHistory(before, events[..n], events[n]);
    assert events[..n] + [events[n]] == events[..n + 1];
  }

  /** A bound state implies an earlier successful authentication with the session's own
      credentials, by a bind of the session's own type. */
  lemma {:induction false} BoundImpliesAuthenticated(events: seq<Event>)
    requires After(events).session.state in {BOUND_TX, BOUND_RX, BOUND_TRX}
    ensures var s := After(events).session;
            && IsBind(s.bindType) && s.state == BoundState(s.bindType)
            && Authenticated(s.bindType, s.systemID, s.password, true) in After(events).log
  {
    ServerFollowsHistory(events);
    BindIsLogged(events[..After(events).processed]);
  }

  lemma {:induction false} BindIsLogged(history: seq<Event>)
    requires LastBind(history).Some?
    ensures var p := LastBind(history).value;
            Authenticated(p.commandID, p.systemID, p.password, true) in HistoryLog(history)
  {
    var e := history[|history| - 1];
    if !(IsBind(e.pdu.commandID) && e.authOk) {
      BindIsLogged(history[..|history| - 1]);
    }
  }

  /** The sequence numbers answered. */
  function Answered(log: seq<Action>): seq<uint32> {
    if log == [] then []
    else Answered(log[..|log| - 1]) + if log[|log| - 1].Sent? then [log[|log| - 1].sequence] else []
  }

  /** The sequence numbers of the PDUs that want an answer. */
  function Asking(history: seq<Event>): seq<uint32> {
    if history == [] then []
    else Asking(history[..|history| - 1])
         + if history[|history| - 1].pdu.commandID != DELIVER_SM_RESP then [history[|history| - 1].pdu.sequence] else []
  }

  lemma {:induction false} AnsweredConcat(a: seq<Action>, b: seq<Action>)
    ensures Answered(a + b) == Answered(a) + Answered(b)
  {
    if b == [] {
      assert a + b == a && Answered(a) + [] == Answered(a);
    } else {
      var k := |b| - 1;
      assert (a + b)[..|a| + k] == a + b[..k];
      AnsweredConcat(a, b[..k]);
    }
  }

  lemma AnsweredOne(a: Action)
    ensures Answered([a]) == if a.Sent? then [a.sequence] else []
  {
    assert [a][..0] == [];
  }

  lemma AnsweredOfActions(history: seq<Event>, e: Event)
    requires e.sendOk
    ensures Answered(HistoryActions(history, e)) == if e.pdu.commandID != DELIVER_SM_RESP then [e.pdu.sequence] else []
  {
    var calls, response := HistoryCalls(history, e), HistoryResponse(history, e);
    AnsweredConcat(calls, if e.pdu.commandID != DELIVER_SM_RESP then [response] else []);
    AnsweredOne(response);
    if calls != [] {
      AnsweredOne(calls[0]);
    }
  }

  lemma AnswersStep(before: seq<Event>, e: Event)
    requires Answered(HistoryLog(before)) == Asking(before) && e.sendOk
    ensures Answered(HistoryLog(before + [e])) == Asking(before + [e])
  {
    assert (before + [e])[..|before|] == before;
    AnsweredConcat(HistoryLog(before), HistoryActions(before, e));
    AnsweredOfActions(before, e);
  }

  lemma {:induction false} HistoryAnswers(history: seq<Event>)
    requires forall i | 0 <= i < |history| :: history[i].sendOk
    ensures Answered(HistoryLog(history)) == Asking(history)
  {
    if history != [] {
      var n := |history| - 1;
      HistoryAnswers(history[..n]);
      AnswersStep(history[..n], history[n]);
      assert history[..n] + [history[n]] == history;
    }
  }

  /** While sends succeed, the PDUs taken in, deliver_sm_resp aside, are answered once each,
      in order, each under its own sequence number. */
  lemma AnsweredOnceEach(events: seq<Event>)
    requires forall i | 0 <= i < |events| :: events[i].sendOk
    ensures After(events).processed <= |events|
    ensures Answered(After(events).log) == Asking(events[..After(events).processed])
  {
    ServerFollowsHistory(events);
    HistoryAnswers(events[..After(events).processed]);
  }

  // ---------------------------------------------------------------- in numbers

  /** The response to a PDU in the numbers of the protocol: a bind is refused with 14, a command the
      last bind does not allow with 4, a handler's failure and an unknown command with 8. */
  lemma ResponseInNumbers(history: seq<Event>, e: Event)
    ensures var c, bind := e.pdu.commandID, LastBind(history);
            var allowed := bind.Some? && bind.value.commandID in (if c == 3 then {1, 9} else {2, 9});
            var r := HistoryResponse(history, e);
            && r.sequence == e.pdu.sequence
            && (c in {1, 2, 9} ==> r.response == Response(c + 0x8000_0000, if e.authOk then 0 else 14,
                                                          SystemID(if e.authOk then e.pdu.systemID else [])))
            && (c in {3, 4, 7, 8, 0x21, 0x103} ==>
                  r.response == Response(c + 0x8000_0000, if !allowed then 4 else if e.handlerOk then 0 else 8,
                                         if allowed && e.handlerOk then FromHandler else Blank))
            && (c in {6, 0x15} ==> r.response == Response(c + 0x8000_0000, 0, Blank))
            && (c !in {1, 2, 9, 3, 4, 7, 8, 0x21, 0x103, 6, 0x15} ==> r.response == Response(0x8000_0000, 8, Blank))
            && HistoryCalls(history, e) ==
                 (if c in {1, 2, 9} then [Authenticated(c, e.pdu.systemID, e.pdu.password, e.authOk)]
                  else if c in {3, 4, 7, 8, 0x21, 0x103} && allowed then [Handled(c)] else [])
            && HistoryActions(history, e) ==
                 HistoryCalls(history, e) + (if c == 0x8000_0005 || !e.sendOk then [] else [r])
  {
  }
}
