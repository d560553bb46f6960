/**
  Every interleaving of the operations on the transactions of one attached database: threads that race to open a
  remote connection, opens, BEGINs, COMMITs and ROLLBACKs that fail, and the in-memory handle. A commit or rollback
  comes after the scans of the transaction have joined, so no thread is in GetDB then.
 */
module TransactionProtocol {
  import opened Bytes
  import opened Transactions

  type Id = nat
  type Thread = nat

  /** Constructed and not started, started and not in the map, in the map, ..., taken out of the map. */
  datatype Phase = Constructed | Started | Running | CommitFailed | Finishing | Extracted

  /** Where a thread is inside GetDB; all but the first hold the lock. */
  datatype Pc = Waiting | Checking | Opening | Beginning | Assigning | Marking | Publishing

  datatype Txn = Txn(phase: Phase, fields: Fields, holder: Option<Thread>, inside: map<Thread, Pc>, sent: seq<Statement>)

  /** `open` says that the one connection of an in-memory database is in a transaction. */
  datatype State = State(
    database: Database,
    active: bool,
    open: bool,
    live: map<Id, Txn>,
    past: map<Id, seq<Statement>>)

  datatype Step =
    | Construct(id: Id, opens: bool)
    | Start(id: Id, answer: Answer)
    | Insert(id: Id)
    | Enter(id: Id, thread: Thread)
    | Acquire(id: Id, thread: Thread)
    | Check(id: Id, thread: Thread, contextAlive: bool)
    | Open(id: Id, thread: Thread, ok: bool)
    | BeginNew(id: Id, thread: Thread, answer: Answer)
    | Assign(id: Id, thread: Thread)
    | Mark(id: Id, thread: Thread)
    | Publish(id: Id, thread: Thread)
    | CommitIt(id: Id, answer: Answer)
    | RollbackAfterCommit(id: Id, answer: Answer)
    | RollbackIt(id: Id, answer: Answer)
    | Extract(id: Id)
    | Destroy(id: Id)

  function Init(database: Database): State {
    State(database, false, false, map[], map[])
  }

  function New(database: Database): Txn {
    Txn(Constructed, if database.Remote? then CLOSED else OPENED, None, map[], [])
  }

  function Send(t: Txn, command: Command, answer: Answer): Txn {
    t.(sent := t.sent + [Statement(command, answer)])
  }

  function Leave(t: Txn, thread: Thread): Txn {
    t.(holder := None, inside := t.inside - {thread})
  }

  function Move(t: Txn, thread: Thread, pc: Pc): Txn {
    t.(inside := t.inside[thread := pc])
  }

  predicate At(t: Txn, thread: Thread, pc: Pc) {
    thread in t.inside && t.inside[thread] == pc && (pc != Waiting ==> t.holder == Some(thread))
  }

  /** When a live transaction can take a step. */
  predicate TxnEnabled(t: Txn, step: Step) {
    match step
    case Construct(_, _) => false
    case Start(_, _) => t.phase == Constructed
    case Insert(_) => t.phase == Started
    case Enter(_, thread) => t.phase == Running && thread !in t.inside
    case Acquire(_, thread) => At(t, thread, Waiting) && t.holder == None
    case Check(_, thread, _) => At(t, thread, Checking)
    case Open(_, thread, _) => At(t, thread, Opening)
    case BeginNew(_, thread, _) => At(t, thread, Beginning)
    case Assign(_, thread) => At(t, thread, Assigning)
    case Mark(_, thread) => At(t, thread, Marking)
    case Publish(_, thread) => At(t, thread, Publishing)
    case CommitIt(_, _) => t.phase == Running && t.inside == map[]
    case RollbackAfterCommit(_, _) => t.phase == CommitFailed
    case RollbackIt(_, _) => t.phase == Running && t.inside == map[]
    case Extract(_) => t.phase == Finishing
    case Destroy(_) => t.phase == Extracted
  }

  function TxnStep(t: Txn, step: Step): Txn
    requires TxnEnabled(t, step)
  {
    match step
    case Start(_, answer) =>
      if !t.fields.initialized || t.fields.started then t.(phase := Started)
      else if answer.Ok? then Send(t, Begin, answer).(phase := Started, fields := t.fields.(started := true))
      else Send(t, Begin, answer).(phase := Extracted)
    case Insert(_) => t.(phase := Running)
    case Enter(_, thread) => if t.fields.initialized then t else Move(t, thread, Waiting)
    case Acquire(_, thread) => Move(t, thread, Checking).(holder := Some(thread))
    case Check(_, thread, contextAlive) =>
      if t.fields.initialized || !contextAlive then Leave(t, thread) else Move(t, thread, Opening)
    case Open(_, thread, ok) => if ok then Move(t, thread, Beginning) else Leave(t, thread)
    case BeginNew(_, thread, answer) =>
      if answer.Ok? then Move(Send(t, Begin, answer), thread, Assigning) else Leave(Send(t, Begin, answer), thread)
    case Assign(_, thread) => Move(t, thread, Marking).(fields := t.fields.(connected := true))
    case Mark(_, thread) => Move(t, thread, Publishing).(fields := t.fields.(started := true))
    case Publish(_, thread) => Leave(t, thread).(fields := t.fields.(initialized := true))
    case CommitIt(_, answer) =>
      if !t.fields.started then t.(phase := Finishing)
      else Send(t, Command.Commit, answer).(phase := if answer.Ok? then Finishing else CommitFailed)
    case RollbackAfterCommit(_, answer) =>
      (if t.fields.started then Send(t, Command.Rollback, answer) else t).(phase := Finishing)
    case RollbackIt(_, answer) =>
      if !t.fields.started then t.(phase := Finishing)
      else Send(t, Command.Rollback, answer).(phase := if answer.Ok? then Finishing else Running)
    case Extract(_) => t.(phase := Extracted)
    case _ => t
  }

  /** The statement that a step sends, if any. */
  function Sends(t: Txn, step: Step): Option<Statement>
    requires TxnEnabled(t, step)
  {
    var u := TxnStep(t, step);
    if |u.sent| > |t.sent| then Some(u.sent[|t.sent|]) else None
  }

  /** When a step can happen; SQLite answers on the in-memory connection as its state permits. */
  predicate Enabled(s: State, step: Step) {
    if step.Construct? then step.id !in s.live && step.id !in s.past
    else
      step.id in s.live && TxnEnabled(s.live[step.id], step) &&
      var statement := Sends(s.live[step.id], step);
      s.database.InMemory? && statement.Some? ==> Permits(s.open, statement.value)
  }

  function Apply(s: State, step: Step): State
    requires Enabled(s, step)
  {
    if step.Construct? then
      if (s.database.InMemory? && s.active) || (s.database.Local? && !step.opens) then s
      else s.(active := s.database.InMemory?, live := s.live[step.id := New(s.database)])
    else if step.Destroy? then
      s.(active := s.active && !s.database.InMemory?, live := s.live - {step.id},
         past := s.past[step.id := s.live[step.id].sent])
    else
      var statement := Sends(s.live[step.id], step);
      s.(live := s.live[step.id := TxnStep(s.live[step.id], step)],
         open := if s.database.InMemory? && statement.Some? then OpenAfter(s.open, statement.value) else s.open)
  }

  /** GetDB returns a connection in this step. */
  predicate Returns(s: State, step: Step)
    requires Enabled(s, step)
  {
    (step.Enter? || step.Check? || step.Publish?) &&
    (step.Publish? || s.live[step.id].fields.initialized)
  }

  /** A destructor gives the in-memory handle back, and it is not in use. */
  predicate ReleaseFails(s: State, step: Step) {
    step.Destroy? && s.database.InMemory? && !s.active
  }

  // ----- one thread alone

  /** The steps of GetDB with the lock held. */
  function Locked(t: Txn, id: Id, thread: Thread, opens: bool, begins: Answer): (r: Txn)
    requires At(t, thread, Opening)
  {
    var afterOpen := TxnStep(t, Open(id, thread, opens));
    if !opens then afterOpen else
    var afterBegin := TxnStep(afterOpen, BeginNew(id, thread, begins));
    if !begins.Ok? then afterBegin else
    var afterAssign := TxnStep(afterBegin, Assign(id, thread));
    TxnStep(TxnStep(afterAssign, Mark(id, thread)), Publish(id, thread))
  }

  /** A call of GetDB that no other thread interferes with. */
  function Alone(t: Txn, id: Id, thread: Thread, contextAlive: bool, opens: bool, begins: Answer): (r: Txn)
    requires t.phase == Running && t.inside == map[] && t.holder == None
  {
    var entered := TxnStep(t, Enter(id, thread));
    if t.fields.initialized then entered else
    var checked := TxnStep(TxnStep(entered, Acquire(id, thread)), Check(id, thread, contextAlive));
    if !contextAlive then checked else Locked(checked, id, thread, opens, begins)
  }

  /** It does to the fields and statements what the method of the class does. */
  lemma AloneIsGetDB(t: Txn, id: Id, thread: Thread, contextAlive: bool, opens: bool, begins: Answer)
    requires t.phase == Running && t.inside == map[] && t.holder == None && t.fields in {CLOSED, BEGUN}
    ensures var r := Alone(t, id, thread, contextAlive, opens, begins);
      r.inside == map[] && r.holder == None && r.phase == Running &&
      r.fields == (if t.fields == BEGUN || (contextAlive && opens && begins.Ok?) then BEGUN else CLOSED) &&
      r.sent == t.sent + if t.fields == CLOSED && contextAlive && opens then [Statement(Begin, begins)] else []
  {
    if t.fields == CLOSED {
      hide Locked, Send;
      assert TxnStep(TxnStep(t, Enter(id, thread)), Acquire(id, thread)) == In(t, thread, Checking);
      LeaveIn(t, thread, Checking);
      MoveIn(t, thread, Checking, Opening);
      LockedAlone(t, id, thread, opens, begins);
    }
  }

  /** The steps of StartTransaction, of CommitTransaction and of RollbackTransaction, up to the destruction. */
  function StartAlone(t: Txn, id: Id, begins: Answer): (r: Txn)
    requires t.phase == Constructed
  {
    var started := TxnStep(t, Start(id, begins));
    if started.phase == Started then TxnStep(started, Insert(id)) else started
  }

  function CommitAlone(t: Txn, id: Id, commits: Answer, rollsBack: Answer): (r: Txn)
    requires t.phase == Running && t.inside == map[]
  {
    var committed := TxnStep(t, CommitIt(id, commits));
    var finished :=
      if committed.phase == CommitFailed then TxnStep(committed, RollbackAfterCommit(id, rollsBack)) else committed;
    TxnStep(finished, Extract(id))
  }

  function RollbackAlone(t: Txn, id: Id, rollsBack: Answer): (r: Txn)
    requires t.phase == Running && t.inside == map[]
  {
    var rolledBack := TxnStep(t, RollbackIt(id, rollsBack));
    if rolledBack.phase == Finishing then TxnStep(rolledBack, Extract(id)) else rolledBack
  }

  /** They send what the methods of the manager send, and end where those end. */
  lemma AloneIsManager(t: Txn, database: Database, id: Id, commits: Answer, rollsBack: Answer)
    requires t.phase == Running && t.inside == map[] && t.holder == None && t.fields in {CLOSED, BEGUN}
    ensures var r := StartAlone(New(database), id, commits);
      r.phase == (if database.Remote? || commits.Ok? then Running else Extracted) &&
      r.sent == (if database.Remote? then [] else [Statement(Begin, commits)]) &&
      r.fields == if database.Remote? then CLOSED else if commits.Ok? then BEGUN else OPENED
    ensures var r := CommitAlone(t, id, commits, rollsBack);
      r.phase == Extracted && r.fields == t.fields &&
      r.sent == t.sent +
        if t.fields == CLOSED then [] else if commits.Ok? then [Statement(Command.Commit, commits)]
        else [Statement(Command.Commit, commits), Statement(Command.Rollback, rollsBack)]
    ensures var r := RollbackAlone(t, id, rollsBack);
      r.phase == (if t.fields == CLOSED || rollsBack.Ok? then Extracted else Running) && r.fields == t.fields &&
      r.sent == t.sent + if t.fields == CLOSED then [] else [Statement(Command.Rollback, rollsBack)]
  {
    var commit, rollback := Statement(Command.Commit, commits), Statement(Command.Rollback, rollsBack);
    assert t.sent + [commit] + [rollback] == t.sent + [commit, rollback] && t.sent + [] == t.sent;
    assert [] + [Statement(Begin, commits)] == [Statement(Begin, commits)];
  }

  /** t with one thread in it, which holds the lock. */
  function In(t: Txn, thread: Thread, pc: Pc): Txn {
    t.(holder := Some(thread), inside := map[thread := pc])
  }

  lemma MoveIn(t: Txn, thread: Thread, from: Pc, to: Pc)
    ensures Move(In(t, thread, from), thread, to) == In(t, thread, to)
  {
  }

  lemma LeaveIn(t: Txn, thread: Thread, from: Pc)
    requires t.inside == map[] && t.holder == None
    ensures Leave(In(t, thread, from), thread) == t
  {
  }

  lemma LockedAlone(t: Txn, id: Id, thread: Thread, opens: bool, begins: Answer)
    requires t.inside == map[] && t.holder == None
    ensures Locked(In(t, thread, Opening), id, thread, opens, begins) ==
      if !opens then t else if !begins.Ok? then Send(t, Begin, begins) else Send(t, Begin, begins).(fields := BEGUN)
  {
    hide Move, Leave;
    LeaveIn(t, thread, Opening);
    MoveIn(t, thread, Opening, Beginning);
    var begun := Send(t, Begin, begins);
    LeaveIn(begun, thread, Beginning);
    MoveIn(begun, thread, Beginning, Assigning);
    MoveIn(begun, thread, Assigning, Marking);
    var connected := begun.(fields := t.fields.(connected := true));
    MoveIn(connected, thread, Marking, Publishing);
    LeaveIn(connected.(fields := connected.fields.(started := true)), thread, Publishing);
  }

  // ----- what every step keeps

  ghost predicate LockInv(t: Txn) {
    (t.holder.Some? ==> t.holder.value in t.inside && t.inside[t.holder.value] != Waiting) &&
    forall thread :: thread in t.inside && t.inside[thread] != Waiting ==> t.holder == Some(thread)
  }

  /** What the thread that holds the lock has done so far. */
  ghost predicate HolderInv(pc: Pc, fields: Fields, status: Status) {
    match pc
    case Waiting => false
    case Checking => (fields == CLOSED && status == NotBegun) || (fields == BEGUN && status == Active)
    case Opening => fields == CLOSED && status == NotBegun
    case Beginning => fields == CLOSED && status == NotBegun
    case Assigning => fields == CLOSED && status == Active
    case Marking => fields == CLOSED.(connected := true) && status == Active
    case Publishing => fields == BEGUN.(initialized := false) && status == Active
  }

  ghost predicate PhaseInv(database: Database, phase: Phase, fields: Fields, status: Status) {
    match phase
    case Constructed => status == NotBegun && fields == (if database.Remote? then CLOSED else OPENED)
    case Started => Usable(database, fields, status)
    case Running => Usable(database, fields, status)
    case CommitFailed => fields == BEGUN && status == Active
    case _ => status != Misused && (fields == BEGUN <==> status != NotBegun)
  }

  ghost predicate Usable(database: Database, fields: Fields, status: Status) {
    (fields == BEGUN && status == Active) || (database.Remote? && fields == CLOSED && status == NotBegun)
  }

  ghost predicate TxnInv(database: Database, t: Txn) {
    LockInv(t) && (t.inside != map[] ==> database.Remote? && t.phase == Running) &&
    if t.holder.Some? then HolderInv(t.inside[t.holder.value], t.fields, Replay(t.sent))
    else PhaseInv(database, t.phase, t.fields, Replay(t.sent))
  }

  ghost predicate Inv(s: State) {
    (s.active <==> s.database.InMemory? && s.live != map[]) &&
    (s.database.InMemory? ==> forall a, b :: a in s.live && b in s.live ==> a == b) &&
    (forall id :: id in s.live ==> TxnInv(s.database, s.live[id]) && id !in s.past) &&
    forall id :: id in s.past ==> Replay(s.past[id]) != Misused
  }

  lemma SendReplay(t: Txn, command: Command, answer: Answer)
    ensures Replay(Send(t, command, answer).sent) == Next(Replay(t.sent), Statement(command, answer))
  {
  }

  /** The steps of GetDB. */
  lemma GetDBInv(database: Database, t: Txn, step: Step)
    requires TxnInv(database, t) && TxnEnabled(t, step)
    requires step.Enter? || step.Acquire? || step.Check? || step.Open?
    ensures TxnInv(database, TxnStep(t, step))
  {
    hide Replay;
  }

  lemma InitializeInv(database: Database, t: Txn, step: Step)
    requires TxnInv(database, t) && TxnEnabled(t, step)
    requires step.BeginNew? || step.Assign? || step.Mark? || step.Publish?
    ensures TxnInv(database, TxnStep(t, step))
  {
    hide Replay;
    if step.BeginNew? {
      SendReplay(t, Begin, step.answer);
    }
  }

  lemma LifeInv(database: Database, t: Txn, step: Step)
    requires TxnInv(database, t) && TxnEnabled(t, step)
    requires step.Start? || step.Insert? || step.CommitIt? || step.RollbackAfterCommit? || step.RollbackIt? || step.Extract?
    ensures TxnInv(database, TxnStep(t, step))
  {
    hide Replay;
    if step.Start? {
      SendReplay(t, Begin, step.answer);
    } else if step.CommitIt? {
      SendReplay(t, Command.Commit, step.answer);
    } else if step.RollbackAfterCommit? || step.RollbackIt? {
      SendReplay(t, Command.Rollback, step.answer);
    }
  }

  lemma TxnStepInv(database: Database, t: Txn, step: Step)
    requires TxnInv(database, t) && TxnEnabled(t, step) && !step.Destroy?
    ensures TxnInv(database, TxnStep(t, step))
  {
    hide TxnInv, TxnStep;
    if step.Enter? || step.Acquire? || step.Check? || step.Open? {
      GetDBInv(database, t, step);
    } else if step.BeginNew? || step.Assign? || step.Mark? || step.Publish? {
      InitializeInv(database, t, step);
    } else {
      LifeInv(database, t, step);
    }
  }

  lemma NewInv(database: Database)
    ensures TxnInv(database, New(database))
  {
  }

  lemma NotMisused(database: Database, t: Txn)
    requires TxnInv(database, t)
    ensures Replay(t.sent) != Misused
  {
  }

  /** Every step keeps the invariant. */
  lemma StepInv(s: State, step: Step)
    requires Inv(s) && Enabled(s, step)
    ensures Inv(Apply(s, step))
  {
    hide TxnInv, TxnStep, Replay, New, TxnEnabled;
    if step.Construct? {
      NewInv(s.database);
    } else if step.Destroy? {
      NotMisused(s.database, s.live[step.id]);
    } else {
      TxnStepInv(s.database, s.live[step.id], step);
    }
  }

  // ----- whole runs

  predicate IsRun(s: State, steps: seq<Step>)
    decreases |steps|
  {
    steps == [] || (Enabled(s, steps[0]) && IsRun(Apply(s, steps[0]), steps[1..]))
  }

  function Final(s: State, steps: seq<Step>): State
    requires IsRun(s, steps)
    decreases |steps|
  {
    if steps == [] then s else Final(Apply(s, steps[0]), steps[1..])
  }

  lemma {:induction false} RunInv(s: State, steps: seq<Step>)
    requires Inv(s) && IsRun(s, steps)
    ensures Inv(Final(s, steps))
    decreases |steps|
  {
    if steps != [] {
      hide Inv, Apply, Enabled;
      StepInv(s, steps[0]);
      RunInv(Apply(s, steps[0]), steps[1..]);
    }
  }

  /** What a transaction sent, whether it still lives or not. */
  function SentBy(s: State, id: Id): seq<Statement> {
    if id in s.live then s.live[id].sent else if id in s.past then s.past[id] else []
  }

  /**
    After every run: the in-memory handle is in use exactly when one transaction lives, and never more than one does;
    and no transaction, alive or destroyed, misused its connection.
   */
  lemma RunsAreSafe(database: Database, steps: seq<Step>, id: Id)
    requires IsRun(Init(database), steps)
    ensures var s := Final(Init(database), steps);
      (s.active <==> database.InMemory? && |s.live| == 1) && (database.InMemory? ==> |s.live| <= 1) &&
      Replay(SentBy(s, id)) != Misused && (id in s.live ==> Replay(s.live[id].sent) != Misused) &&
      (id in s.past ==> Replay(s.past[id]) != Misused)
  {
    hide TxnInv;
    RunInv(Init(database), steps);
    FinalDatabase(Init(database), steps);
    var s := Final(Init(database), steps);
    if id in s.live {
      NotMisused(database, s.live[id]);
    }
    if database.InMemory? {
      OneKey(s.live);
    }
  }

  lemma {:induction false} FinalDatabase(s: State, steps: seq<Step>)
    requires IsRun(s, steps)
    ensures Final(s, steps).database == s.database
    decreases |steps|
  {
    if steps != [] {
      FinalDatabase(Apply(s, steps[0]), steps[1..]);
    }
  }

  lemma OneKey(m: map<Id, Txn>)
    requires forall a, b :: a in m && b in m ==> a == b
    ensures |m| == if m == map[] then 0 else 1
  {
    if m != map[] {
      var id :| id in m;
      assert m.Keys == {id};
      assert |m| == |m.Keys|;
    }
  }

  /**
    In every run each transaction has at most one successful BEGIN, sends COMMIT and ROLLBACK only after it, and sends
    nothing after a COMMIT or ROLLBACK that succeeded.
   */
  lemma OneBeginPerTransaction(database: Database, steps: seq<Step>, id: Id, i: nat, j: nat)
    requires IsRun(Init(database), steps)
    requires i < |SentBy(Final(Init(database), steps), id)| && j < |SentBy(Final(Init(database), steps), id)|
    ensures var sent := SentBy(Final(Init(database), steps), id);
      (Succeeds(sent, i, false) && Succeeds(sent, j, false) ==> i == j) &&
      (sent[i].command != Begin ==> exists b :: 0 <= b < i && Succeeds(sent, b, false)) &&
      (Succeeds(sent, i, true) ==> i == |sent| - 1)
  {
    RunsAreSafe(database, steps, id);
    WellUsed(SentBy(Final(Init(database), steps), id), i, j);
  }

  /** The handle that a destructor gives back is in use, after every run. */
  lemma ReleaseNeverFails(database: Database, steps: seq<Step>, step: Step)
    requires IsRun(Init(database), steps) && Enabled(Final(Init(database), steps), step)
    ensures !ReleaseFails(Final(Init(database), steps), step)
  {
    RunInv(Init(database), steps);
  }

  /** A connection that GetDB returns is open and has begun, and no COMMIT or ROLLBACK has ended it with success. */
  lemma ReturnedIsBegun(s: State, step: Step)
    requires Inv(s) && Enabled(s, step) && Returns(s, step)
    ensures step.id in Apply(s, step).live && Apply(s, step).live[step.id].fields == BEGUN
    ensures Replay(Apply(s, step).live[step.id].sent) == Active
  {
    hide Replay;
    var t := s.live[step.id];
    assert TxnInv(s.database, t);
  }

  /** The connection stays open as long as the transaction lives. */
  lemma ReturnedStaysOpen(s: State, step: Step, id: Id)
    requires Inv(s) && Enabled(s, step) && id in s.live && s.live[id].fields == BEGUN
    ensures id in Apply(s, step).live ==> Apply(s, step).live[id].fields == BEGUN
  {
    hide Replay;
    assert TxnInv(s.database, s.live[id]);
  }

  /** A call of GetDB ends in a step that leaves it; it returns a connection exactly when one is published then. */
  lemma ReturnsExactly(s: State, step: Step)
    requires Inv(s) && Enabled(s, step)
    requires step.Enter? || step.Acquire? || step.Check? || step.Open? || step.BeginNew? || step.Assign? || step.Mark? || step.Publish?
    ensures step.id in Apply(s, step).live
    ensures Returns(s, step) <==>
            var t := Apply(s, step).live[step.id]; step.thread !in t.inside && t.fields.initialized
  {
    hide Replay;
    assert TxnInv(s.database, s.live[step.id]);
  }

  /**
    A transaction cannot be constructed exactly when it is the second on an in-memory database or a local file cannot be
    opened, and then nothing changes; otherwise it is new, and only it.
   */
  lemma ConstructsExactly(s: State, id: Id, opens: bool)
    requires Inv(s) && Enabled(s, Construct(id, opens))
    ensures var t := Apply(s, Construct(id, opens));
      if (s.database.InMemory? && s.live != map[]) || (s.database.Local? && !opens) then t == s
      else
        id in t.live && t.live - {id} == s.live && t.past == s.past && t.open == s.open &&
        t.live[id].sent == [] && t.live[id].phase == Constructed &&
        t.live[id].fields == if s.database.Remote? then CLOSED else OPENED
  {
    hide Replay, TxnInv;
  }

  /** Only one thread at a time opens a connection, and none does once one is published. */
  lemma OneThreadOpens(s: State, id: Id, a: Thread, b: Thread)
    requires Inv(s) && id in s.live && a in s.live[id].inside && b in s.live[id].inside
    requires s.live[id].inside[a] !in {Waiting, Checking} && s.live[id].inside[b] != Waiting
    ensures a == b && !s.live[id].fields.initialized
  {
  }

  /** After a ROLLBACK that failed the in-memory handle is kept, and a new transaction is refused. */
  lemma FailedRollbackKeepsHandle(s: State, id: Id, answer: Answer, other: Id)
    requires Inv(s) && s.database.InMemory? && !answer.Ok? && Enabled(s, RollbackIt(id, answer))
    requires other !in s.live && other !in s.past
    ensures var after := Apply(s, RollbackIt(id, answer));
      after.active && id in after.live && after.live[id].phase == Running &&
      Enabled(after, Construct(other, true)) && Apply(after, Construct(other, true)) == after
  {
    hide Replay;
    assert TxnInv(s.database, s.live[id]);
  }
}
