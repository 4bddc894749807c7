/** What a run of operations leaves in the store, told for each ID and each file from the operations
    alone. */
module StoreHistory {
  import opened FileStore
  import opened GoStrings
  import opened Messages
  import opened Results

  function Lookup<T>(m: map<GoString, T>, key: GoString): Option<T> {
    if key in m then Some(m[key]) else None
  }

  /** The ID an operation is about. */
  function Subject(op: Operation): GoString {
    match op
    case StoreSMS(m, _, _) => m.id
    case UpdateSMS(m, _) => m.id
    case UpdateSMSStatus(id, _, _, _, _) => id
    case DeleteSMS(id, _) => id
  }

  /** A message with a new status; five statuses also set when it was done. */
  function Marked(m: Message, status: MessageStatus, now: int, date: GoString): Message {
    match status
    case Delivered | Expired | Deleted | Undeliverable | Rejected =>
      m.(status := status, doneTime := Some(now), doneDate := date)
    case Submitted | Enroute | Accepted | Unknown | Split => m.(status := status)
  }

  /** The message held under a non-empty ID: the one last stored or put in its place, with the
      statuses given to it since, unless it has been deleted. */
  function Held(start: map<GoString, Message>, ops: seq<Operation>, id: GoString): Option<Message> {
    if ops == [] then Lookup(start, id)
    else
      var before, op := Held(start, ops[..|ops| - 1], id), ops[|ops| - 1];
      if Subject(op) != id || id == [] then before
      else match op
        case StoreSMS(m, now, _) => Some(m.(submitTime := now))
        case UpdateSMS(m, _) => if before == None then None else Some(m)
        case UpdateSMSStatus(_, status, now, date, _) =>
          if before == None then None else Some(Marked(before.value, status, now, date))
        case DeleteSMS(_, _) => None
  }

  /** The operation is carried out: on an ID that is not empty, and to change or delete a message there
      must be one. */
  predicate TakesEffect(start: map<GoString, Message>, ops: seq<Operation>, op: Operation) {
    Subject(op) != [] && (op.StoreSMS? || Held(start, ops, Subject(op)) != None)
  }

  /** What an operation that takes effect makes of its file, and of the message there is after it. */
  function Rewritten(p: Platform, op: Operation, left: Option<seq<byte>>, now: Option<Message>): Option<seq<byte>> {
    if op.DeleteSMS? then if op.removal == Done then None else left
    else
      var data := if now == None then None else p.marshal(now.value);
      if data == None then left
      else match op.write
        case Done => data
        case Refused => left
        case Torn(rest) => Some(rest)
  }

  /** What a file holds: what the last accepted operation on an ID with that file wrote into it. */
  function Filed(p: Platform, start: State, ops: seq<Operation>, name: GoString): Option<seq<byte>> {
    if ops == [] then Lookup(start.disk, name)
    else
      var before, op := ops[..|ops| - 1], ops[|ops| - 1];
      var left := Filed(p, start, before, name);
      if p.FileOf(Subject(op)) != Some(name) || !TakesEffect(start.messages, before, op) then left
      else Rewritten(p, op, left, Held(start.messages, ops, Subject(op)))
  }

  // ---------------------------------------------------------------- every run

  lemma StepHolds(p: Platform, s: State, start: map<GoString, Message>, before: seq<Operation>, op: Operation, id: GoString)
    requires Keyed(s.messages) && Lookup(s.messages, id) == Held(start, before, id)
    ensures Lookup(Next(p, s, op).messages, id) == Held(start, before + [op], id)
  {
    assert (before + [op])[..|before|] == before;
  }

  lemma StepKeyed(p: Platform, s: State, op: Operation)
    requires Keyed(s.messages)
    ensures Keyed(Next(p, s, op).messages)
  {
  }

  /** After any run every ID has the message that the operations say, or none. */
  lemma {:induction false} RunHolds(p: Platform, start: State, ops: seq<Operation>, id: GoString)
    requires Keyed(start.messages)
    ensures Keyed(Run(p, start, ops).messages)
    ensures Lookup(Run(p, start, ops).messages, id) == Held(start.messages, ops, id)
  {
    if ops != [] {
      var n := |ops| - 1;
      RunHolds(p, start, ops[..n], id);
      StepHolds(p, Run(p, start, ops[..n]), start.messages, ops[..n], ops[n], id);
      StepKeyed(p, Run(p, start, ops[..n]), ops[n]);
      assert ops[..n] + [ops[n]] == ops;
    }
  }

  lemma NextFile(p: Platform, s: State, op: Operation, name: GoString)
    requires Keyed(s.messages)
    ensures Lookup(Next(p, s, op).disk, name) ==
            if p.FileOf(Subject(op)) != Some(name) || Subject(op) == [] || !(op.StoreSMS? || Subject(op) in s.messages)
            then Lookup(s.disk, name)
            else Rewritten(p, op, Lookup(s.disk, name), Lookup(Next(p, s, op).messages, Subject(op)))
  {
  }

  lemma StepFiles(p: Platform, s: State, start: State, before: seq<Operation>, op: Operation, name: GoString)
    requires Keyed(s.messages) && Lookup(s.disk, name) == Filed(p, start, before, name)
    requires Lookup(s.messages, Subject(op)) == Held(start.messages, before, Subject(op))
    requires Lookup(Next(p, s, op).messages, Subject(op)) == Held(start.messages, before + [op], Subject(op))
    ensures Lookup(Next(p, s, op).disk, name) == Filed(p, start, before + [op], name)
  {
    NextFile(p, s, op, name);
    assert (before + [op])[..|before|] == before;
  }

  /** And every file has what the operations say, or is not there. */
  lemma {:induction false} RunFiles(p: Platform, start: State, ops: seq<Operation>, name: GoString)
    requires Keyed(start.messages)
    ensures Lookup(Run(p, start, ops).disk, name) == Filed(p, start, ops, name)
  {
    if ops != [] {
      var n := |ops| - 1;
      var id := Subject(ops[n]);
      RunFiles(p, start, ops[..n], name);
      RunHolds(p, start, ops[..n], id);
      RunHolds(p, start, ops, id);
      assert ops[..n] + [ops[n]] == ops;
      StepFiles(p, Run(p, start, ops[..n]), start, ops[..n], ops[n], name);
    }
  }

  /** The answer to the next operation: an empty ID, no such message, or whether the disk went along. */
  lemma RunAnswers(p: Platform, start: State, ops: seq<Operation>, op: Operation)
    requires Keyed(start.messages)
    ensures var id, after := Subject(op), Held(start.messages, ops + [op], Subject(op));
            Outcome(p, Run(p, start, ops), op) ==
              if id == [] then Err(EmptyId)
              else if !op.StoreSMS? && Held(start.messages, ops, id) == None then Err(NotFound)
              else if (if op.DeleteSMS? then op.removal == Done
                       else after.Some? && p.marshal(after.value).Some? && op.write == Done) then Ok(id)
              else Err(DiskFailure)
  {
    var id := Subject(op);
    RunHolds(p, start, ops, id);
    RunHolds(p, start, ops + [op], id);
    assert (ops + [op])[..|ops|] == ops;
  }

  // ---------------------------------------------------------------- what callers see

  /** After a delete, whatever came before and whatever becomes of the file, the ID has no message;
      when the message was there and its file was removed, the file is gone too; all else is as it was. */
  lemma DeletedIsGone(p: Platform, start: State, ops: seq<Operation>, id: GoString, removal: Access)
    requires Keyed(start.messages) && id != []
    ensures var s, t := Run(p, start, ops), Run(p, start, ops + [DeleteSMS(id, removal)]);
            && id !in t.messages
            && (forall other | other != id :: Lookup(t.messages, other) == Lookup(s.messages, other))
            && (id in s.messages && removal == Done && p.FileOf(id).Some? ==> p.FileOf(id).value !in t.disk)
            && (forall name | p.FileOf(id) != Some(name) :: Lookup(t.disk, name) == Lookup(s.disk, name))
            && (id !in s.messages || removal != Done ==> t.disk == s.disk)
  {
    OneMore(p, start, ops, DeleteSMS(id, removal));
  }

  lemma OneMore(p: Platform, start: State, ops: seq<Operation>, op: Operation)
    ensures Run(p, start, ops + [op]) == Next(p, Run(p, start, ops), op)
  {
    assert (ops + [op])[..|ops|] == ops;
  }

  /** After a store the ID has the message, submitted now, even if the disk refused; when the message
      was written, its file has it. */
  lemma StoredIsHeld(p: Platform, start: State, ops: seq<Operation>, m: Message, now: int, write: Access)
    requires Keyed(start.messages) && m.id != []
    ensures var s, t := Run(p, start, ops), Run(p, start, ops + [StoreSMS(m, now, write)]);
            && t.messages == s.messages[m.id := m.(submitTime := now)]
            && (forall name | p.FileOf(m.id) != Some(name) :: Lookup(t.disk, name) == Lookup(s.disk, name))
            && (p.FileOf(m.id).Some? && write == Done && p.marshal(m.(submitTime := now)).Some? ==>
                  Lookup(t.disk, p.FileOf(m.id).value) == p.marshal(m.(submitTime := now)))
  {
    OneMore(p, start, ops, StoreSMS(m, now, write));
  }

  /** After a change of status the ID has the old message with the new status and, for the five final
      ones, the time and date it was done. */
  lemma StatusIsHeld(p: Platform, start: State, ops: seq<Operation>, id: GoString, status: MessageStatus,
                     now: int, date: GoString, write: Access)
    requires Keyed(start.messages) && id != [] && id in Run(p, start, ops).messages
    ensures var s, t := Run(p, start, ops), Run(p, start, ops + [UpdateSMSStatus(id, status, now, date, write)]);
            && t.messages == s.messages[id := Marked(s.messages[id], status, now, date)]
            && t.messages[id].status == status
            && (status in {Delivered, Expired, Deleted, Undeliverable, Rejected} ==>
                  t.messages[id].doneTime == Some(now) && t.messages[id].doneDate == date)
            && (status in {Submitted, Enroute, Accepted, Unknown, Split} ==>
                  t.messages[id].doneTime == s.messages[id].doneTime && t.messages[id].doneDate == s.messages[id].doneDate)
  {
    RunHolds(p, start, ops, id);
    OneMore(p, start, ops, UpdateSMSStatus(id, status, now, date, write));
  }

  /** An operation that is not accepted changes nothing. */
  lemma RefusedIsNothing(p: Platform, start: State, ops: seq<Operation>, op: Operation)
    requires Keyed(start.messages) && !TakesEffect(start.messages, ops, op)
    ensures Run(p, start, ops + [op]) == Run(p, start, ops)
  {
    RunHolds(p, start, ops, Subject(op));
    OneMore(p, start, ops, op);
  }
}
