/** Messages held in memory and in one file each, and searches over them. */
module FileStore {
  import opened GoStrings
  import opened Messages
  import opened Paths
  import opened Results
  import opened StringSearch

  /** The files of the messages directory. */
  type Disk = map<GoString, seq<byte>>
  type Store = map<GoString, Message>

  /** Where the store keeps its files, and serialisation: marshal may refuse a message, and
      unmarshal need not give back what was marshalled. */
  datatype Platform = Platform(
    workingDir: seq<GoString>, dataDir: GoString,
    marshal: Message -> Option<seq<byte>>,
    unmarshal: seq<byte> -> Option<Message>)
  {
    /** The name of an ID's file in the messages directory, or None when its path leads out of it. */
    function FileOf(id: GoString): Option<GoString> {
      Paths.FileOf(workingDir, dataDir, id)
    }

    /** The message survives being written and read. */
    predicate Keeps(m: Message) {
      marshal(m).Some? && unmarshal(marshal(m).value) == Some(m)
    }
  }

  /** What became of a write or a removal: a refused one touches nothing, a torn one leaves
      other data in the file. */
  datatype Access = Done | Refused | Torn(left: seq<byte>)

  // ---------------------------------------------------------------- loading

  function Read(p: Platform, disk: Disk, name: GoString): Option<Message> {
    if name in disk && EndsWith(name, JSON) then p.unmarshal(disk[name]) else None
  }

  /** Reading the entries in order; a later file wins over an earlier one with the same ID. */
  function Loaded(p: Platform, disk: Disk, entries: seq<GoString>): Store {
    if entries == [] then map[]
    else
      var before := Loaded(p, disk, entries[..|entries| - 1]);
      var m := Read(p, disk, entries[|entries| - 1]);
      if m.Some? then before[m.value.id := m.value] else before
  }

  predicate Lists(entries: seq<GoString>, disk: Disk) {
    (forall name | name in entries :: name in disk) && (forall name | name in disk :: name in entries)
  }

  predicate InItsFile(p: Platform, disk: Disk, id: GoString, m: Message) {
    m.id == id && p.FileOf(id).Some? && Read(p, disk, p.FileOf(id).value) == Some(m)
  }

  predicate FiledUnder(p: Platform, messages: Store, id: GoString, name: GoString) {
    id in messages && p.FileOf(id) == Some(name)
  }

  /** Memory and disk agree: every message is in its own file, and every readable file is one's. */
  predicate Coherent(p: Platform, messages: Store, disk: Disk) {
    && (forall id | id in messages :: InItsFile(p, disk, id, messages[id]))
    && (forall name | name in disk && Read(p, disk, name).Some? ::
          FiledUnder(p, messages, Read(p, disk, name).value.id, name))
  }

  lemma {:induction false} LoadedFrom(p: Platform, disk: Disk, entries: seq<GoString>, id: GoString)
    requires id in Loaded(p, disk, entries)
    ensures exists name :: name in entries && Read(p, disk, name) == Some(Loaded(p, disk, entries)[id])
    ensures Loaded(p, disk, entries)[id].id == id
  {
    var last := entries[|entries| - 1];
    var m := Read(p, disk, last);
    if m.Some? && m.value.id == id {
      assert last in entries;
    } else {
      LoadedFrom(p, disk, entries[..|entries| - 1], id);
    }
  }

  lemma {:induction false} LoadedIncludes(p: Platform, disk: Disk, entries: seq<GoString>, name: GoString)
    requires name in entries && Read(p, disk, name).Some?
    ensures Read(p, disk, name).value.id in Loaded(p, disk, entries)
  {
    if name != entries[|entries| - 1] {
      assert name in entries[..|entries| - 1];
      LoadedIncludes(p, disk, entries[..|entries| - 1], name);
    }
  }

  /** Loading rebuilds the messages in memory, whatever order the directory is read in. */
  lemma LoadedIsMemory(p: Platform, messages: Store, disk: Disk, entries: seq<GoString>)
    requires Coherent(p, messages, disk) && Lists(entries, disk)
    ensures Loaded(p, disk, entries) == messages
  {
    var loaded := Loaded(p, disk, entries);
    forall id | id in loaded ensures id in messages && messages[id] == loaded[id] {
      LoadedFrom(p, disk, entries, id);
    }
    forall id | id in messages ensures id in loaded {
      assert InItsFile(p, disk, id, messages[id]);
      LoadedIncludes(p, disk, entries, p.FileOf(id).value);
    }
  }

  // ---------------------------------------------------------------- saving

  function Written(p: Platform, disk: Disk, id: GoString, data: seq<byte>): Disk {
    var name := p.FileOf(id);
    if name.Some? then disk[name.value := data] else disk
  }

  function AfterSave(p: Platform, disk: Disk, m: Message, write: Access): Disk {
    var data := p.marshal(m);
    if data.None? then disk
    else match write
      case Done => Written(p, disk, m.id, data.value)
      case Refused => disk
      case Torn(left) => Written(p, disk, m.id, left)
  }

  predicate Saves(p: Platform, m: Message, write: Access) {
    p.marshal(m).Some? && write == Done
  }

  /** The ID's file is in the directory and no other message's. */
  predicate OwnsFile(p: Platform, messages: Store, id: GoString) {
    p.FileOf(id).Some? && forall other | other in messages && other != id :: p.FileOf(other) != p.FileOf(id)
  }

  lemma OwnNameIsJson(p: Platform, id: GoString)
    requires p.FileOf(id).Some?
    ensures EndsWith(p.FileOf(id).value, JSON)
  {
    FileOfExactly(p.workingDir, p.dataDir, id);
  }

  lemma WriteKeepsCoherence(p: Platform, messages: Store, disk: Disk, m: Message, data: seq<byte>)
    requires Coherent(p, messages, disk)
    requires p.unmarshal(data) == Some(m) && OwnsFile(p, messages, m.id)
    ensures Coherent(p, messages[m.id := m], Written(p, disk, m.id, data))
  {
    var name, after := p.FileOf(m.id).value, Written(p, disk, m.id, data);
    OwnNameIsJson(p, m.id);
    assert Read(p, after, name) == Some(m);
    forall id | id in messages && id != m.id ensures InItsFile(p, after, id, messages[id]) {
      assert InItsFile(p, disk, id, messages[id]);
    }
    forall n | n in after && Read(p, after, n).Some?
      ensures FiledUnder(p, messages[m.id := m], Read(p, after, n).value.id, n)
    {
      if n != name {
        assert Read(p, after, n) == Read(p, disk, n);
      }
    }
  }

  /** Whatever a write leaves in the file: loading gives what is in memory exactly when that reads
      as the message and the file is no other message's. */
  lemma WrittenExactly(p: Platform, messages: Store, disk: Disk, m: Message, data: seq<byte>, entries: seq<GoString>)
    requires Coherent(p, messages, disk) && Lists(entries, Written(p, disk, m.id, data))
    ensures Loaded(p, Written(p, disk, m.id, data), entries) == messages[m.id := m]
       <==> p.unmarshal(data) == Some(m) && OwnsFile(p, messages, m.id)
  {
    var after := Written(p, disk, m.id, data);
    if p.unmarshal(data) == Some(m) && OwnsFile(p, messages, m.id) {
      WriteKeepsCoherence(p, messages, disk, m, data);
      LoadedIsMemory(p, messages[m.id := m], after, entries);
    } else if Loaded(p, after, entries) == messages[m.id := m] {
      WrittenComesBack(p, messages, disk, m, data, entries);
      forall other | other in messages && other != m.id ensures p.FileOf(other) != p.FileOf(m.id) {
        OthersComeBack(p, messages, disk, m, data, entries, other);
      }
    }
  }

  lemma WrittenComesBack(p: Platform, messages: Store, disk: Disk, m: Message, data: seq<byte>, entries: seq<GoString>)
    requires Coherent(p, messages, disk)
    requires Loaded(p, Written(p, disk, m.id, data), entries) == messages[m.id := m]
    ensures p.FileOf(m.id).Some? && p.unmarshal(data) == Some(m)
  {
    var after := Written(p, disk, m.id, data);
    LoadedFrom(p, after, entries, m.id);
    var name :| name in entries && Read(p, after, name) == Some(m);
    assert p.FileOf(m.id) != Some(name) ==> Read(p, after, name) == Read(p, disk, name);
    assert p.FileOf(m.id) == Some(name) ==> Read(p, after, name) == p.unmarshal(data);
  }

  lemma OthersComeBack(p: Platform, messages: Store, disk: Disk, m: Message, data: seq<byte>,
                       entries: seq<GoString>, other: GoString)
    requires Coherent(p, messages, disk) && p.unmarshal(data) == Some(m) && p.FileOf(m.id).Some?
    requires Loaded(p, Written(p, disk, m.id, data), entries) == messages[m.id := m]
    requires other in messages && other != m.id
    ensures p.FileOf(other) != p.FileOf(m.id)
  {
    var after := Written(p, disk, m.id, data);
    LoadedFrom(p, after, entries, other);
    var name :| name in entries && Read(p, after, name) == Some(messages[other]);
    assert InItsFile(p, disk, other, messages[other]);
    OwnNameIsJson(p, m.id);
    assert Read(p, after, p.FileOf(m.id).value) == Some(m);
    assert Read(p, after, name) == Read(p, disk, name);
  }

  /** After a completed save from an agreeing state, loading gives what is in memory exactly when the
      message survives serialisation and its file is its own. */
  lemma SavedExactly(p: Platform, messages: Store, disk: Disk, m: Message, entries: seq<GoString>)
    requires Coherent(p, messages, disk) && p.marshal(m).Some?
    requires Lists(entries, AfterSave(p, disk, m, Done))
    ensures Loaded(p, AfterSave(p, disk, m, Done), entries) == messages[m.id := m]
       <==> p.Keeps(m) && OwnsFile(p, messages, m.id)
  {
    WrittenExactly(p, messages, disk, m, p.marshal(m).value, entries);
  }

  /** After a torn save it does so exactly when what was left in the file happens to read as the message. */
  lemma TornExactly(p: Platform, messages: Store, disk: Disk, m: Message, left: seq<byte>, entries: seq<GoString>)
    requires Coherent(p, messages, disk) && p.marshal(m).Some?
    requires Lists(entries, AfterSave(p, disk, m, Torn(left)))
    ensures Loaded(p, AfterSave(p, disk, m, Torn(left)), entries) == messages[m.id := m]
       <==> p.unmarshal(left) == Some(m) && OwnsFile(p, messages, m.id)
  {
    WrittenExactly(p, messages, disk, m, left, entries);
  }

  /** Saving a message again as it was, and failing halfway, loses it. */
  lemma TornUpdateLoses(p: Platform, messages: Store, disk: Disk, m: Message, left: seq<byte>, entries: seq<GoString>)
    requires Coherent(p, messages, disk) && m.id in messages && messages[m.id] == m
    requires p.marshal(m).Some? && p.unmarshal(left) == None
    requires Lists(entries, AfterSave(p, disk, m, Torn(left)))
    ensures Loaded(p, AfterSave(p, disk, m, Torn(left)), entries) == messages - {m.id}
  {
    var after := AfterSave(p, disk, m, Torn(left));
    var name := p.FileOf(m.id).value;
    assert InItsFile(p, disk, m.id, m);
    forall n | n in after && n != name ensures Read(p, after, n) == Read(p, disk, n) {}
    assert Read(p, after, name) == None;
    forall id | id in messages && id != m.id ensures InItsFile(p, after, id, messages[id]) {
      assert InItsFile(p, disk, id, messages[id]);
    }
    LoadedIsMemory(p, messages - {m.id}, after, entries);
  }

  /** A message whose ID names a subdirectory is not loaded again. */
  lemma SlashLosesMessage(p: Platform, messages: Store, disk: Disk, m: Message, a: GoString, b: GoString, entries: seq<GoString>)
    requires Coherent(p, messages, disk) && p.marshal(m).Some? && m.id == a + [SLASH] + b
    requires SLASH !in a && SLASH !in b && a != [] && a != HERE && a != PARENT
    requires Lists(entries, AfterSave(p, disk, m, Done))
    ensures Loaded(p, AfterSave(p, disk, m, Done), entries) == messages
    ensures m.id !in messages
  {
    SubdirectoryIsLost(p.workingDir, p.dataDir, a, b);
    assert m.id in messages ==> InItsFile(p, disk, m.id, messages[m.id]);
    LoadedIsMemory(p, messages, disk, entries);
  }

  /** A message whose ID goes down and up again takes the file of the message it ends in. */
  lemma DetourTakesFile(p: Platform, messages: Store, disk: Disk, m: Message, a: GoString, b: GoString, entries: seq<GoString>)
    requires Coherent(p, messages, disk) && p.marshal(m).Some?
    requires m.id == a + [SLASH] + (PARENT + [SLASH] + b) && b in messages
    requires SLASH !in a && SLASH !in b && a != [] && a != HERE && a != PARENT
    requires Lists(entries, AfterSave(p, disk, m, Done))
    ensures Loaded(p, AfterSave(p, disk, m, Done), entries) != messages[m.id := m]
  {
    DetourIsShared(p.workingDir, p.dataDir, a, b);
    SavedExactly(p, messages, disk, m, entries);
    assert SLASH in m.id;
    assert b != m.id;
  }

  /** Plain file names are never shared. */
  lemma PlainOwns(p: Platform, messages: Store, id: GoString)
    requires SLASH !in id && AllPlain(messages)
    ensures OwnsFile(p, messages, id)
  {
    PlainFile(p.workingDir, p.dataDir, id);
    forall other | other in messages && other != id ensures p.FileOf(other) != p.FileOf(id) {
      PlainFile(p.workingDir, p.dataDir, other);
      assert (other + JSON)[..|other|] == other && (id + JSON)[..|id|] == id;
    }
  }

  lemma UpdateChangesNothing(messages: Store, m: Message)
    ensures messages[m.id := m] == messages <==> m.id in messages && messages[m.id] == m
  {
    var updated := messages[m.id := m];
    assert m.id in updated && updated[m.id] == m;
  }

  /** A save that does not reach the file leaves memory ahead of the disk unless it saved nothing new. */
  lemma RefusedExactly(p: Platform, messages: Store, disk: Disk, m: Message, write: Access, entries: seq<GoString>)
    requires Coherent(p, messages, disk) && Lists(entries, disk)
    requires p.marshal(m).None? || write == Refused
    ensures Loaded(p, AfterSave(p, disk, m, write), entries) == messages[m.id := m]
       <==> m.id in messages && messages[m.id] == m
  {
    assert AfterSave(p, disk, m, write) == disk;
    LoadedIsMemory(p, messages, disk, entries);
    UpdateChangesNothing(messages, m);
  }

  // ---------------------------------------------------------------- operations

  datatype Operation =
    | StoreSMS(message: Message, now: int, write: Access)
    | UpdateSMS(message: Message, write: Access)
    | UpdateSMSStatus(id: GoString, status: MessageStatus, now: int, date: GoString, write: Access)
    | DeleteSMS(id: GoString, removal: Access)

  datatype State = State(messages: Store, disk: Disk)

  predicate Final(status: MessageStatus) {
    status in {Delivered, Expired, Deleted, Undeliverable, Rejected}
  }

  function WithStatus(m: Message, status: MessageStatus, now: int, date: GoString): Message {
    if Final(status) then m.(status := status, doneTime := Some(now), doneDate := date)
    else m.(status := status)
  }

  /** What an operation saves, or why it is refused before anything changes. */
  function ToSave(messages: Store, op: Operation): Result<Message> {
    match op
    case StoreSMS(m, now, _) => if m.id == [] then Err(EmptyId) else Ok(m.(submitTime := now))
    case UpdateSMS(m, _) =>
      if m.id == [] then Err(EmptyId) else if m.id !in messages then Err(NotFound) else Ok(m)
    case UpdateSMSStatus(id, status, now, date, _) =>
      if id == [] then Err(EmptyId) else if id !in messages then Err(NotFound)
      else Ok(WithStatus(messages[id], status, now, date))
    case DeleteSMS(id, _) =>
      if id == [] then Err(EmptyId) else if id !in messages then Err(NotFound) else Ok(messages[id])
  }

  function AfterRemoval(p: Platform, disk: Disk, id: GoString, removal: Access): Disk {
    if removal == Done && p.FileOf(id).Some? then disk - {p.FileOf(id).value} else disk
  }

  predicate Keyed(messages: Store) {
    forall id | id in messages :: messages[id].id == id
  }

  /** Memory changes first, and stays changed when the disk refuses. */
  function Next(p: Platform, s: State, op: Operation): State {
    var r := ToSave(s.messages, op);
    if r.Err? then s
    else if op.DeleteSMS? then State(s.messages - {op.id}, AfterRemoval(p, s.disk, op.id, op.removal))
    else State(s.messages[r.value.id := r.value], AfterSave(p, s.disk, r.value, op.write))
  }

  function Outcome(p: Platform, s: State, op: Operation): Result<GoString> {
    var r := ToSave(s.messages, op);
    if r.Err? then Err(r.error)
    else if if op.DeleteSMS? then op.removal == Done else Saves(p, r.value, op.write) then Ok(r.value.id)
    else Err(DiskFailure)
  }

  function Run(p: Platform, s: State, ops: seq<Operation>): State {
    if ops == [] then s else Next(p, Run(p, s, ops[..|ops| - 1]), ops[|ops| - 1])
  }

  /** The operation did what it was asked or changed nothing, under a plain ID and with a message
      that survives serialisation. */
  predicate Sound(p: Platform, s: State, op: Operation) {
    var r := ToSave(s.messages, op);
    && (Outcome(p, s, op).Err? ==> Outcome(p, s, op).error != DiskFailure)
    && (r.Ok? && !op.DeleteSMS? ==> SLASH !in r.value.id && p.Keeps(r.value))
  }

  predicate AllPlain(messages: Store) {
    forall id | id in messages :: SLASH !in id
  }

  lemma RemovalKeepsCoherence(p: Platform, messages: Store, disk: Disk, id: GoString)
    requires Coherent(p, messages, disk) && id in messages
    ensures Coherent(p, messages - {id}, AfterRemoval(p, disk, id, Done))
  {
    var after := AfterRemoval(p, disk, id, Done);
    assert InItsFile(p, disk, id, messages[id]);
    forall other | other in messages && other != id ensures InItsFile(p, after, other, messages[other]) {
      assert InItsFile(p, disk, other, messages[other]);
    }
    forall name | name in after && Read(p, after, name).Some?
      ensures FiledUnder(p, messages - {id}, Read(p, after, name).value.id, name)
    {
      assert Read(p, after, name) == Read(p, disk, name);
    }
  }

  /** After a removal, loading gives what is in memory exactly when the file is gone. */
  lemma RemovedExactly(p: Platform, messages: Store, disk: Disk, id: GoString, removal: Access, entries: seq<GoString>)
    requires Coherent(p, messages, disk) && id in messages
    requires Lists(entries, AfterRemoval(p, disk, id, removal))
    ensures Loaded(p, AfterRemoval(p, disk, id, removal), entries) == messages - {id} <==> removal == Done
  {
    if removal == Done {
      RemovalKeepsCoherence(p, messages, disk, id);
      LoadedIsMemory(p, messages - {id}, AfterRemoval(p, disk, id, Done), entries);
    } else {
      LoadedIsMemory(p, messages, disk, entries);
    }
  }

  lemma StepKeepsCoherence(p: Platform, s: State, op: Operation)
    requires Coherent(p, s.messages, s.disk) && AllPlain(s.messages) && Sound(p, s, op)
    ensures Coherent(p, Next(p, s, op).messages, Next(p, s, op).disk) && AllPlain(Next(p, s, op).messages)
  {
    var r := ToSave(s.messages, op);
    if r.Err? {
    } else if op.DeleteSMS? {
      RemovalKeepsCoherence(p, s.messages, s.disk, op.id);
    } else {
      PlainOwns(p, s.messages, r.value.id);
      WriteKeepsCoherence(p, s.messages, s.disk, r.value, p.marshal(r.value).value);
    }
  }

  /** After any run of sound operations, loading rebuilds exactly what is in memory. */
  lemma {:induction false} RunReloads(p: Platform, s: State, ops: seq<Operation>, entries: seq<GoString>)
    requires Coherent(p, s.messages, s.disk) && AllPlain(s.messages)
    requires forall i | 0 <= i < |ops| :: Sound(p, Run(p, s, ops[..i]), ops[i])
    requires Lists(entries, Run(p, s, ops).disk)
    ensures Loaded(p, Run(p, s, ops).disk, entries) == Run(p, s, ops).messages
  {
    RunKeepsCoherence(p, s, ops);
    LoadedIsMemory(p, Run(p, s, ops).messages, Run(p, s, ops).disk, entries);
  }

  lemma {:induction false} RunKeepsCoherence(p: Platform, s: State, ops: seq<Operation>)
    requires Coherent(p, s.messages, s.disk) && AllPlain(s.messages)
    requires forall i | 0 <= i < |ops| :: Sound(p, Run(p, s, ops[..i]), ops[i])
    ensures Coherent(p, Run(p, s, ops).messages, Run(p, s, ops).disk) && AllPlain(Run(p, s, ops).messages)
  {
    if ops != [] {
      var before := ops[..|ops| - 1];
      forall i | 0 <= i < |before| ensures Sound(p, Run(p, s, before[..i]), before[i]) {
        assert before[..i] == ops[..i];
      }
      RunKeepsCoherence(p, s, before);
      StepKeepsCoherence(p, Run(p, s, before), ops[|ops| - 1]);
    }
  }

  class FileSMSStorage {
    const platform: Platform
    var messages: Store
    var disk: Disk

    ghost function Contents(): State
      reads this
    {
      State(messages, disk)
    }

    /** Opens a directory and loads the messages in it. */
    constructor (platform: Platform, disk: Disk, entries: seq<GoString>)
      ensures this.platform == platform && this.disk == disk
      ensures messages == Loaded(platform, disk, entries) && Keyed(messages)
    {
      this.platform := platform;
      this.disk := disk;
      messages := map[];
      new;
      for i := 0 to |entries|
        invariant this.disk == disk && messages == Loaded(platform, disk, entries[..i]) && Keyed(messages)
      {
        var m := Read(platform, disk, entries[i]);
        assert entries[..i + 1][..i] == entries[..i];
        if m.Some? {
          messages := messages[m.value.id := m.value];
        }
      }
      assert entries[..|entries|] == entries;
    }

    method SaveMessage(m: Message, write: Access) returns (ok: bool)
      modifies `disk
      ensures disk == AfterSave(platform, old(disk), m, write) && ok == Saves(platform, m, write)
    {
      var data, name := platform.marshal(m), platform.FileOf(m.id);
      if data.None? {
        return false;
      }
      if name.Some? {
        match write
        case Done => disk := disk[name.value := data.value];
        case Refused =>
        case Torn(left) => disk := disk[name.value := left];
      }
      return write == Done;
    }

    method Store(message: Message, now: int, write: Access) returns (r: Result<GoString>)
      modifies this
      ensures Contents() == Next(platform, old(Contents()), StoreSMS(message, now, write))
      ensures r == Outcome(platform, old(Contents()), StoreSMS(message, now, write))
    {
      if message.id == [] {
        return Err(EmptyId);
      }
      var copy := message.(submitTime := now);
      messages := messages[message.id := copy];
      var ok := SaveMessage(copy, write);
      r := if ok then Ok(message.id) else Err(DiskFailure);
    }

    method Get(id: GoString) returns (r: Result<Message>)
      ensures r == if id == [] then Err(EmptyId) else if id !in messages then Err(NotFound) else Ok(messages[id])
    {
      if id == [] {
        return Err(EmptyId);
      }
      if id !in messages {
        return Err(NotFound);
      }
      return Ok(messages[id]);
    }

    method Update(message: Message, write: Access) returns (r: Result<GoString>)
      modifies this
      ensures Contents() == Next(platform, old(Contents()), UpdateSMS(message, write))
      ensures r == Outcome(platform, old(Contents()), UpdateSMS(message, write))
    {
      if message.id == [] {
        return Err(EmptyId);
      }
      if message.id !in messages {
        return Err(NotFound);
      }
      messages := messages[message.id := message];
      var ok := SaveMessage(message, write);
      r := if ok then Ok(message.id) else Err(DiskFailure);
    }

    method UpdateStatus(id: GoString, status: MessageStatus, now: int, date: GoString, write: Access)
      returns (r: Result<GoString>)
      requires Keyed(messages)
      modifies this
      ensures Keyed(messages)
      ensures Contents() == Next(platform, old(Contents()), UpdateSMSStatus(id, status, now, date, write))
      ensures r == Outcome(platform, old(Contents()), UpdateSMSStatus(id, status, now, date, write))
    {
      if id == [] {
        return Err(EmptyId);
      }
      if id !in messages {
        return Err(NotFound);
      }
      var m := messages[id].(status := status);
      if Final(status) {
        m := m.(doneTime := Some(now), doneDate := date);
      }
      messages := messages[id := m];
      var ok := SaveMessage(m, write);
      r := if ok then Ok(id) else Err(DiskFailure);
    }

    method Delete(id: GoString, removal: Access) returns (r: Result<GoString>)
      requires Keyed(messages)
      modifies this
      ensures Keyed(messages)
      ensures Contents() == Next(platform, old(Contents()), DeleteSMS(id, removal))
      ensures r == Outcome(platform, old(Contents()), DeleteSMS(id, removal))
    {
      if id == [] {
        return Err(EmptyId);
      }
      if id !in messages {
        return Err(NotFound);
      }
      messages := messages - {id};
      var name := platform.FileOf(id);
      if removal != Done {
        return Err(DiskFailure);
      }
      if name.Some? {
        disk := disk - {name.value};
      }
      return Ok(id);
    }
  }

  /** Opening fails when the directories cannot be made or the messages directory cannot be listed. */
  method NewFileSMSStorage(platform: Platform, disk: Disk, entries: seq<GoString>, made: bool, listed: bool)
    returns (r: Result<FileSMSStorage>)
    ensures r.Ok? <==> made && listed
    ensures r.Ok? ==> fresh(r.value) && r.value.platform == platform && r.value.disk == disk
    ensures r.Ok? ==> r.value.messages == Loaded(platform, disk, entries) && Keyed(r.value.messages)
  {
    if !made || !listed {
      return Err(DiskFailure);
    }
    var storage := new FileSMSStorage(platform, disk, entries);
    r := Ok(storage);
  }
}
