/** The one connection of an in-memory database, which its transactions use one after the other. */
module InMemoryConnection {
  import opened Bytes
  import opened Transactions
  import opened TransactionProtocol

  ghost predicate PastOpen(s: State) {
    exists id :: id in s.past && LeavesOpen(s.past[id])
  }

  ghost predicate LiveOpen(s: State) {
    exists id :: id in s.live && LeavesOpen(s.live[id].sent)
  }

  /** The connection is in a transaction when a transaction left it so; then the next ones cannot begin. */
  ghost predicate ConnectionInv(s: State) {
    s.database.InMemory? ==>
      && (s.open <==> PastOpen(s) || LiveOpen(s))
      && (PastOpen(s) ==> forall id :: id in s.live ==> Replay(s.live[id].sent) == NotBegun)
  }

  lemma StepSends(t: Txn, step: Step)
    requires TxnEnabled(t, step)
    ensures TxnStep(t, step).sent == t.sent + if Sends(t, step).Some? then [Sends(t, step).value] else []
  {
  }

  lemma {:induction false} NotBegunNotOpen(sent: seq<Statement>)
    requires Replay(sent) == NotBegun
    ensures !LeavesOpen(sent)
  {
    if sent != [] {
      NotBegunNotOpen(sent[..|sent| - 1]);
    }
  }

  /** On a connection in a transaction that is not its own, a transaction stays as far as it is. */
  lemma StaysNotBegun(sent: seq<Statement>, statement: Statement)
    requires Replay(sent) == NotBegun && Replay(sent + [statement]) != Misused && Permits(true, statement)
    ensures Replay(sent + [statement]) == NotBegun && OpenAfter(true, statement)
  {
    hide Replay;
    ReplaySnoc(sent, statement);
  }

  lemma SendConnection(s: State, step: Step)
    requires Inv(s) && ConnectionInv(s) && Enabled(s, step) && !step.Construct? && !step.Destroy? && s.database.InMemory?
    ensures ConnectionInv(Apply(s, step))
  {
    hide Replay, LeavesOpen, TxnStep, TxnEnabled, Sends, TxnInv, OpenAfter;
    var id, t := step.id, Apply(s, step);
    StepInv(s, step);
    var sent, statement := s.live[id].sent, Sends(s.live[id], step);
    StepSends(s.live[id], step);
    NotMisused(s.database, t.live[id]);
    assert forall other :: other in t.live <==> other == id;
    assert PastOpen(t) == PastOpen(s);
    assert LiveOpen(s) == LeavesOpen(sent) && LiveOpen(t) == LeavesOpen(t.live[id].sent);
    if statement.Some? {
      LeavesOpenSnoc(sent, statement.value);
      if PastOpen(s) {
        StaysNotBegun(sent, statement.value);
        NotBegunNotOpen(t.live[id].sent);
      }
    } else {
      assert t.live[id].sent == sent;
    }
  }

  lemma StepConnection(s: State, step: Step)
    requires Inv(s) && ConnectionInv(s) && Enabled(s, step)
    ensures ConnectionInv(Apply(s, step))
  {
    if s.database.InMemory? {
      hide Replay, TxnStep, TxnEnabled, Sends, TxnInv;
      var t := Apply(s, step);
      if step.Construct? {
        if t != s {
          assert t.live[step.id].sent == [];
          assert Replay([]) == NotBegun by { Nothing(); }
          assert !LiveOpen(s);
          assert !LiveOpen(t);
          assert PastOpen(s) == PastOpen(t);
        }
      } else if step.Destroy? {
        hide LeavesOpen;
        assert t.live == map[];
        assert t.past[step.id] == s.live[step.id].sent;
        assert forall id :: id in s.past ==> id in t.past && t.past[id] == s.past[id];
      } else {
        SendConnection(s, step);
      }
    }
  }

  lemma Nothing()
    ensures Replay([]) == NotBegun
  {
  }

  lemma {:induction false} RunConnection(s: State, steps: seq<Step>)
    requires Inv(s) && ConnectionInv(s) && IsRun(s, steps)
    ensures Inv(Final(s, steps)) && ConnectionInv(Final(s, steps))
    decreases |steps|
  {
    if steps != [] {
      hide Inv, ConnectionInv, Apply, Enabled;
      StepInv(s, steps[0]);
      StepConnection(s, steps[0]);
      RunConnection(Apply(s, steps[0]), steps[1..]);
    }
  }

  /**
    In every run: when the in-memory handle is free, the connection behind it is in a transaction if and only if some
    transaction left it so - its BEGIN succeeded, and its COMMITs and ROLLBACKs all failed and left it open.
   */
  lemma HandedOutIdle(steps: seq<Step>)
    requires IsRun(Init(InMemory), steps) && !Final(Init(InMemory), steps).active
    ensures var s := Final(Init(InMemory), steps);
      s.open <==> exists id, b :: id in s.past && OpenSince(s.past[id], b)
  {
    hide Replay, TxnInv, OpenSince;
    RunConnection(Init(InMemory), steps);
    FinalDatabase(Init(InMemory), steps);
    var s := Final(Init(InMemory), steps);
    assert s.live == map[];
    forall id | id in s.past
      ensures LeavesOpen(s.past[id]) <==> exists b :: OpenSince(s.past[id], b)
    {
      LeavesOpenExactly(s.past[id]);
    }
  }

  /**
    In every run: the connection that GetDB returns is in a transaction unless a COMMIT or ROLLBACK sent to it since
    its BEGIN succeeded, or failed and ended the transaction.
   */
  lemma ReturnedInTransaction(steps: seq<Step>, s: State, step: Step)
    requires IsRun(Init(InMemory), steps) && s == Final(Init(InMemory), steps) && Enabled(s, step) && Returns(s, step)
    ensures step.id in Apply(s, step).live
    ensures Apply(s, step).open <==> exists b :: OpenSince(Apply(s, step).live[step.id].sent, b)
  {
    hide Replay, TxnInv, TxnStep, TxnEnabled, Sends, OpenSince, LeavesOpen;
    RunConnection(Init(InMemory), steps);
    FinalDatabase(Init(InMemory), steps);
    var t := Apply(s, step);
    ReturnedIsBegun(s, step);
    StepInv(s, step);
    StepConnection(s, step);
    assert forall other :: other in t.live <==> other == step.id;
    LeavesOpenExactly(t.live[step.id].sent);
  }

  /** Once it is so it stays so: whatever happens then, no further transaction begins on this connection. */
  lemma {:induction false} StuckForever(s: State, steps: seq<Step>, id: Id)
    requires Inv(s) && ConnectionInv(s) && s.database.InMemory? && PastOpen(s) && IsRun(s, steps) && id !in s.past
    ensures Final(s, steps).open && Replay(SentBy(Final(s, steps), id)) == NotBegun
    decreases |steps|
  {
    hide Replay, TxnStep, TxnEnabled, Sends, TxnInv, LeavesOpen;
    if steps == [] {
      Nothing();
    } else {
      var t := Apply(s, steps[0]);
      StepInv(s, steps[0]);
      StepConnection(s, steps[0]);
      assert PastOpen(t) by {
        var o :| o in s.past && LeavesOpen(s.past[o]);
        assert o in t.past && t.past[o] == s.past[o];
      }
      if id in t.past {
        PastStays(t, steps[1..], id);
        RunConnection(t, steps[1..]);
        PastStaysOpen(t, steps[1..]);
      } else {
        StuckForever(t, steps[1..], id);
      }
    }
  }

  /** A destroyed transaction sends nothing any more. */
  lemma {:induction false} PastStays(s: State, steps: seq<Step>, id: Id)
    requires Inv(s) && IsRun(s, steps) && id in s.past
    ensures id in Final(s, steps).past && SentBy(Final(s, steps), id) == s.past[id]
    decreases |steps|
  {
    hide Replay, TxnInv, TxnStep, Sends, TxnEnabled;
    if steps != [] {
      StepInv(s, steps[0]);
      PastStays(Apply(s, steps[0]), steps[1..], id);
    }
  }

  lemma PastStaysOpen(s: State, steps: seq<Step>)
    requires Inv(s) && ConnectionInv(s) && s.database.InMemory? && PastOpen(s) && IsRun(s, steps)
    ensures Final(s, steps).open
  {
    hide Replay, TxnInv, LeavesOpen, Apply, Enabled;
    RunConnection(s, steps);
    FinalDatabase(s, steps);
    var o :| o in s.past && LeavesOpen(s.past[o]);
    PastStays(s, steps, o);
    var t := Final(s, steps);
    assert o in t.past && t.past[o] == s.past[o];
  }

  /** One in-memory transaction, alone. */
  function Solo(phase: Phase, fields: Fields, sent: seq<Statement>, open: bool): State {
    State(InMemory, true, open, map[0 := Txn(phase, fields, None, map[], sent)], map[])
  }

  lemma SoloStart()
    ensures Leads(Solo(Constructed, OPENED, [], false), Start(0, Ok), Solo(Started, BEGUN, [Statement(Begin, Ok)], true))
  {
    var s := Solo(Constructed, OPENED, [], false);
    assert [] + [Statement(Begin, Ok)] == [Statement(Begin, Ok)];
    assert Apply(s, Start(0, Ok)).live == map[0 := TxnStep(s.live[0], Start(0, Ok))];
  }

  lemma SoloMove(sent: seq<Statement>)
    ensures Leads(Solo(Started, BEGUN, sent, true), Insert(0), Solo(Running, BEGUN, sent, true))
    ensures Leads(Solo(Finishing, BEGUN, sent, true), Extract(0), Solo(Extracted, BEGUN, sent, true))
  {
  }

  lemma SoloCommit(sent: seq<Statement>)
    ensures Leads(Solo(Running, BEGUN, sent, true), CommitIt(0, Failed),
                  Solo(CommitFailed, BEGUN, sent + [Statement(Command.Commit, Failed)], true))
  {
    var s := Solo(Running, BEGUN, sent, true);
    assert Sends(s.live[0], CommitIt(0, Failed)) == Some(Statement(Command.Commit, Failed));
  }

  lemma SoloRollback(sent: seq<Statement>)
    ensures Leads(Solo(CommitFailed, BEGUN, sent, true), RollbackAfterCommit(0, Failed),
                  Solo(Finishing, BEGUN, sent + [Statement(Command.Rollback, Failed)], true))
  {
    var s := Solo(CommitFailed, BEGUN, sent, true);
    assert Sends(s.live[0], RollbackAfterCommit(0, Failed)) == Some(Statement(Command.Rollback, Failed));
  }

  predicate Leads(s: State, step: Step, t: State) {
    Enabled(s, step) && Apply(s, step) == t
  }

  lemma FirstAndLast(sent: seq<Statement>)
    ensures Leads(Init(InMemory), Construct(0, true), Solo(Constructed, OPENED, [], false))
    ensures Leads(Solo(Extracted, BEGUN, sent, true), Destroy(0), State(InMemory, false, true, map[], map[0 := sent]))
  {
    assert Solo(Extracted, BEGUN, sent, true).live - {0} == map[];
  }

  /** COMMIT and the ROLLBACK after it both fail and leave the transaction open: the handle is free all the same. */
  lemma LeftOpenRun() returns (steps: seq<Step>)
    ensures IsRun(Init(InMemory), steps)
    ensures !Final(Init(InMemory), steps).active && Final(Init(InMemory), steps).open
  {
    var commit, rollback := Statement(Command.Commit, Failed), Statement(Command.Rollback, Failed);
    var begun := [Statement(Begin, Ok)];
    var failed, sent := begun + [commit], begun + [commit] + [rollback];
    var last := State(InMemory, false, true, map[], map[0 := sent]);
    assert IsRun(last, []) && Final(last, []) == last;
    hide Solo, Leads, Init, IsRun, Final;
    FirstAndLast(sent);
    SoloStart();
    SoloMove(begun);
    SoloCommit(begun);
    SoloRollback(failed);
    SoloMove(sent);
    steps := Before(Solo(Extracted, BEGUN, sent, true), Destroy(0), last, []);
    steps := Before(Solo(Finishing, BEGUN, sent, true), Extract(0), Solo(Extracted, BEGUN, sent, true), steps);
    steps := Before(Solo(CommitFailed, BEGUN, failed, true), RollbackAfterCommit(0, Failed),
                    Solo(Finishing, BEGUN, sent, true), steps);
    steps := Before(Solo(Running, BEGUN, begun, true), CommitIt(0, Failed), Solo(CommitFailed, BEGUN, failed, true), steps);
    steps := Before(Solo(Started, BEGUN, begun, true), Insert(0), Solo(Running, BEGUN, begun, true), steps);
    steps := Before(Solo(Constructed, OPENED, [], false), Start(0, Ok), Solo(Started, BEGUN, begun, true), steps);
    steps := Before(Init(InMemory), Construct(0, true), Solo(Constructed, OPENED, [], false), steps);
  }

  lemma Before(s: State, step: Step, t: State, rest: seq<Step>) returns (steps: seq<Step>)
    requires Leads(s, step, t) && IsRun(t, rest)
    ensures IsRun(s, steps) && Final(s, steps) == Final(t, rest)
  {
    hide Apply, Enabled;
    steps := [step] + rest;
    assert steps[1..] == rest;
  }
}
