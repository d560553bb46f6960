/**
  A transaction on an attached SQLite database, its manager, and the single handle of an in-memory database. What
  SQLite and the network answer comes in as parameters; a transaction remembers the statements it sent.
 */
module Transactions {
  datatype Command = Begin | Commit | Rollback

  /** How SQLite answers; a COMMIT or ROLLBACK that fails can leave the transaction open, or end it all the same. */
  datatype Answer = Ok | Failed | FailedAndEnded

  datatype Statement = Statement(command: Command, answer: Answer)

  /** What the statements of a transaction have led to. */
  datatype Status = NotBegun | Active | Ended | Misused

  /** BEGIN until it succeeds, then COMMIT or ROLLBACK until one succeeds, then nothing. */
  function Next(status: Status, statement: Statement): Status {
    match status
    case NotBegun => if statement.command != Begin then Misused else if statement.answer.Ok? then Active else NotBegun
    case Active => if statement.command == Begin then Misused else if statement.answer.Ok? then Ended else Active
    case _ => Misused
  }

  function Replay(sent: seq<Statement>): Status {
    if sent == [] then NotBegun else Next(Replay(sent[..|sent| - 1]), sent[|sent| - 1])
  }

  lemma ReplaySnoc(sent: seq<Statement>, statement: Statement)
    ensures Replay(sent + [statement]) == Next(Replay(sent), statement)
  {
  }

  lemma {:induction false} ReplayPrefix(sent: seq<Statement>, i: nat)
    requires i <= |sent| && Replay(sent) != Misused
    ensures Replay(sent[..i]) != Misused
    ensures Replay(sent[..i]) == Ended ==> i == |sent|
    ensures Replay(sent[..i]) == Active ==> Replay(sent) != NotBegun
  {
    if i == |sent| {
      assert sent[..i] == sent;
    } else {
      var k := |sent| - 1;
      ReplayPrefix(sent[..k], i);
      assert sent[..k][..i] == sent[..i];
    }
  }

  ghost predicate Succeeds(sent: seq<Statement>, i: int, ends: bool) {
    0 <= i < |sent| && sent[i].answer.Ok? && (ends <==> sent[i].command != Begin)
  }

  /** Unless they are misused: one BEGIN at most succeeds, what ends a transaction follows it, and nothing follows that. */
  lemma WellUsed(sent: seq<Statement>, i: nat, j: nat)
    requires Replay(sent) != Misused && i < |sent| && j < |sent|
    ensures Succeeds(sent, i, false) && Succeeds(sent, j, false) ==> i == j
    ensures sent[i].command != Begin ==> exists b :: 0 <= b < i && Succeeds(sent, b, false)
    ensures Succeeds(sent, i, true) ==> i == |sent| - 1
  {
    hide Replay;
    StatusAt(sent, i);
    StatusAt(sent, j);
    if i < j && Succeeds(sent, i, false) {
      Later(sent, i + 1, j);
    } else if j < i && Succeeds(sent, j, false) {
      Later(sent, j + 1, i);
    }
    if sent[i].command != Begin {
      var b := BegunAt(sent[..i]);
      assert sent[..i][b] == sent[b];
      assert Succeeds(sent, b, false);
    }
  }

  lemma StatusAt(sent: seq<Statement>, i: nat)
    requires Replay(sent) != Misused && i < |sent|
    ensures Replay(sent[..i]) == if sent[i].command == Begin then NotBegun else Active
    ensures Replay(sent[..i + 1]) == Next(Replay(sent[..i]), sent[i])
    ensures Succeeds(sent, i, true) ==> i == |sent| - 1
  {
    hide Replay;
    assert sent[..i + 1] == sent[..i] + [sent[i]];
    ReplaySnoc(sent[..i], sent[i]);
    ReplayPrefix(sent, i + 1);
  }

  lemma Later(sent: seq<Statement>, i: nat, j: nat)
    requires i <= j <= |sent| && Replay(sent) != Misused && Replay(sent[..i]) == Active
    ensures Replay(sent[..j]) != NotBegun
  {
    hide Replay;
    ReplayPrefix(sent, j);
    assert sent[..j][..i] == sent[..i];
    ReplayPrefix(sent[..j], i);
  }

  lemma {:induction false} BegunAt(sent: seq<Statement>) returns (b: nat)
    requires Replay(sent) == Active
    ensures b < |sent| && Succeeds(sent, b, false)
  {
    b := |sent| - 1;
    if Replay(sent[..b]) == Active {
      b := BegunAt(sent[..b]);
    }
  }

  // ----- the connection

  /** Whether a connection is in a transaction after a statement. */
  function OpenAfter(open: bool, statement: Statement): bool {
    if statement.command == Begin then open || statement.answer.Ok? else open && statement.answer == Failed
  }

  /** Whether the statements of a transaction leave it open on the connection. */
  function LeavesOpen(sent: seq<Statement>): bool {
    sent != [] && OpenAfter(LeavesOpen(sent[..|sent| - 1]), sent[|sent| - 1])
  }

  /** BEGIN in a transaction fails, and so do COMMIT and ROLLBACK outside of one. */
  predicate Permits(open: bool, statement: Statement) {
    statement.answer.Ok? ==> open == (statement.command != Begin)
  }

  lemma LeavesOpenSnoc(sent: seq<Statement>, statement: Statement)
    ensures LeavesOpen(sent + [statement]) == OpenAfter(LeavesOpen(sent), statement)
  {
    assert (sent + [statement])[..|sent|] == sent;
  }

  ghost predicate OpenSince(sent: seq<Statement>, b: int) {
    Succeeds(sent, b, false) &&
    forall j :: b < j < |sent| && sent[j].command != Begin ==> sent[j].answer == Failed
  }

  /** Left open: a BEGIN succeeded, and every COMMIT and ROLLBACK behind it failed and left it open. */
  lemma {:induction false} LeavesOpenExactly(sent: seq<Statement>)
    ensures LeavesOpen(sent) <==> exists b :: OpenSince(sent, b)
  {
    if sent != [] {
      var k := |sent| - 1;
      LeavesOpenExactly(sent[..k]);
      if LeavesOpen(sent) && !Succeeds(sent, k, false) {
        var b :| OpenSince(sent[..k], b);
        assert sent[..k][b] == sent[b];
        assert forall j :: b < j < k ==> sent[..k][j] == sent[j];
        assert OpenSince(sent, b);
      } else if LeavesOpen(sent) {
        assert OpenSince(sent, k);
      }
      forall b | OpenSince(sent, b)
        ensures LeavesOpen(sent)
      {
        if b < k {
          assert forall j :: 0 <= j < k ==> sent[..k][j] == sent[j];
          assert OpenSince(sent[..k], b);
        }
      }
    }
  }

  datatype Database = InMemory | Local | Remote

  class Catalog {
    const database: Database
    var activeInMemory: bool

    constructor (database: Database)
      ensures this.database == database && !activeInMemory
    {
      this.database := database;
      activeInMemory := false;
    }

    /** Hands out the one connection unless it is in use. */
    method GetInMemoryDatabase() returns (ok: bool)
      modifies this
      ensures ok <==> database.InMemory? && !old(activeInMemory)
      ensures activeInMemory <==> old(activeInMemory) || database.InMemory?
    {
      if !database.InMemory? || activeInMemory {
        return false;
      }
      activeInMemory := true;
      ok := true;
    }

    /** Fails exactly when the connection is not in use. */
    method ReleaseInMemoryDatabase() returns (ok: bool)
      modifies this
      ensures ok <==> !database.InMemory? || old(activeInMemory)
      ensures activeInMemory <==> old(activeInMemory) && !database.InMemory?
    {
      if !database.InMemory? {
        return true;
      }
      if !activeInMemory {
        return false;
      }
      activeInMemory := false;
      ok := true;
    }
  }

  /** The fields of a transaction; `connected` says that db points to a connection. */
  datatype Fields = Fields(connected: bool, initialized: bool, started: bool)

  const CLOSED := Fields(false, false, false)
  const OPENED := Fields(true, true, false)
  const BEGUN := Fields(true, true, true)

  class Transaction {
    const database: Database
    var connected: bool
    var initialized: bool
    var started: bool
    var sent: seq<Statement>

    ghost function View(): Fields
      reads this
    {
      Fields(connected, initialized, started)
    }

    /** The connection is open exactly when that is published, and begun exactly when that is recorded. */
    ghost predicate Valid()
      reads this
    {
      View() in {CLOSED, OPENED, BEGUN} && (View() == CLOSED ==> database.Remote?) &&
      (View() == OPENED ==> !database.Remote?) &&
      Replay(sent) != Misused && (started <==> Replay(sent) != NotBegun)
    }

    /** Ready for use: begun, or remote and not yet opened. */
    ghost predicate Ready()
      reads this
    {
      Valid() && View() != OPENED && Replay(sent) != Ended
    }

    constructor (database: Database)
      ensures Valid() && this.database == database && sent == []
      ensures View() == if database.Remote? then CLOSED else OPENED
    {
      this.database := database;
      connected, initialized, started := !database.Remote?, !database.Remote?, false;
      sent := [];
    }

    method Execute(command: Command, answer: Answer) returns (ok: bool)
      modifies this`sent
      ensures ok == answer.Ok? && sent == old(sent) + [Statement(command, answer)]
    {
      sent := sent + [Statement(command, answer)];
      ok := answer.Ok?;
    }

    /** Begins at once, unless the open is deferred. */
    method Start(begins: Answer) returns (ok: bool)
      requires Valid() && Replay(sent) == NotBegun
      modifies this
      ensures Valid() && (ok ==> Ready()) && (ok <==> database.Remote? || begins.Ok?)
      ensures sent == if database.Remote? then old(sent) else old(sent) + [Statement(Begin, begins)]
    {
      ReplaySnoc(sent, Statement(Begin, begins));
      if initialized && !started {
        ok := Execute(Begin, begins);
        if !ok {
          return;
        }
        started := true;
      }
      ok := true;
    }

    /** Sends COMMIT exactly when BEGIN succeeded. */
    method Commit(commits: Answer) returns (ok: bool)
      requires Ready()
      modifies this
      ensures Valid() && View() == old(View()) && (ok <==> !started || commits.Ok?)
      ensures sent == if started then old(sent) + [Statement(Command.Commit, commits)] else old(sent)
    {
      ReplaySnoc(sent, Statement(Command.Commit, commits));
      ok := true;
      if started {
        ok := Execute(Command.Commit, commits);
      }
    }

    /** Sends ROLLBACK exactly when BEGIN succeeded. */
    method Rollback(rollsBack: Answer) returns (ok: bool)
      requires Ready()
      modifies this
      ensures Valid() && View() == old(View()) && (ok <==> !started || rollsBack.Ok?)
      ensures sent == if started then old(sent) + [Statement(Command.Rollback, rollsBack)] else old(sent)
    {
      ReplaySnoc(sent, Statement(Command.Rollback, rollsBack));
      ok := true;
      if started {
        ok := Execute(Command.Rollback, rollsBack);
      }
    }

    /** Returns a connection that has begun, or fails and leaves the transaction as it was. */
    method GetDB(contextAlive: bool, opens: bool, begins: Answer) returns (ok: bool)
      requires Ready()
      modifies this
      ensures Ready() && (ok <==> View() == BEGUN) && (!ok ==> View() == old(View()))
      ensures ok <==> old(initialized) || (contextAlive && opens && begins.Ok?)
      ensures sent == old(sent) + if !old(initialized) && contextAlive && opens then [Statement(Begin, begins)] else []
    {
      ReplaySnoc(sent, Statement(Begin, begins));
      ok := false;
      if initialized {
        return true;
      }
      if !contextAlive || !opens {
        return;
      }
      var begun := Execute(Begin, begins);
      if !begun {
        return;
      }
      connected := true;
      started := true;
      initialized := true;
      ok := true;
    }
  }

  class Manager {
    const catalog: Catalog
    var transactions: set<Transaction>

    constructor (database: Database)
      ensures Valid() && transactions == {} && fresh(catalog) && catalog.database == database
    {
      catalog := new Catalog(database);
      transactions := {};
    }

    ghost predicate AllReady()
      reads this, transactions
    {
      forall t <- transactions :: t.Ready() && t.database == catalog.database
    }

    /** The in-memory handle is in use exactly while one transaction lives. */
    ghost predicate Valid()
      reads this, transactions, catalog
    {
      AllReady() && (catalog.activeInMemory <==> catalog.database.InMemory? && transactions != {}) &&
      (catalog.database.InMemory? ==> forall t, u :: t in transactions && u in transactions ==> t == u)
    }

    /** A new transaction, or none and everything as it was. */
    method StartTransaction(opens: bool, begins: Answer) returns (transaction: Transaction?)
      requires Valid()
      modifies this, catalog
      ensures Valid()
      ensures transaction != null <==>
        match catalog.database
        case InMemory => old(transactions) == {} && begins.Ok?
        case Local => opens && begins.Ok?
        case Remote => true
      ensures transaction == null ==> transactions == old(transactions)
      ensures transaction != null ==> fresh(transaction) && transactions == old(transactions) + {transaction}
      ensures transaction != null ==>
        transaction.sent == if catalog.database.Remote? then [] else [Statement(Begin, begins)]
    {
      hide Replay, Next;
      if catalog.database.InMemory? {
        var acquired := catalog.GetInMemoryDatabase();
        if !acquired {
          return null;
        }
      } else if catalog.database.Local? && !opens {
        return null;
      }
      var created := new Transaction(catalog.database);
      var started := created.Start(begins);
      if !started {
        var released := catalog.ReleaseInMemoryDatabase();
        assert released;
        return null;
      }
      transactions := transactions + {created};
      transaction := created;
    }

    /** The transaction is gone, whatever COMMIT and the ROLLBACK after a failed COMMIT did. */
    method CommitTransaction(transaction: Transaction, commits: Answer, rollsBack: Answer) returns (ok: bool)
      requires Valid() && transaction in transactions
      modifies this, catalog, transaction
      ensures Valid() && transactions == old(transactions) - {transaction}
      ensures transaction.Valid() && (ok <==> !old(transaction.started) || commits.Ok?)
      ensures transaction.sent == old(transaction.sent) +
        if !old(transaction.started) then [] else if commits.Ok? then [Statement(Command.Commit, commits)]
        else [Statement(Command.Commit, commits), Statement(Command.Rollback, rollsBack)]
    {
      ok := transaction.Commit(commits);
      if !ok {
        var _ := transaction.Rollback(rollsBack);
      }
      ExtractAndClose(transaction);
    }

    /** When ROLLBACK fails the transaction stays, and with it the in-memory handle. */
    method RollbackTransaction(transaction: Transaction, rollsBack: Answer) returns (ok: bool)
      requires Valid() && transaction in transactions
      modifies this, catalog, transaction
      ensures Valid() && (ok <==> !old(transaction.started) || rollsBack.Ok?)
      ensures transactions == if ok then old(transactions) - {transaction} else old(transactions)
      ensures transaction.sent == old(transaction.sent) +
        if old(transaction.started) then [Statement(Command.Rollback, rollsBack)] else []
    {
      ok := transaction.Rollback(rollsBack);
      if !ok {
        return;
      }
      ExtractAndClose(transaction);
    }

    /** Destroys the transaction, which gives the handle back; there always is one to give back. */
    method ExtractAndClose(transaction: Transaction)
      requires transaction in transactions && catalog.activeInMemory == catalog.database.InMemory?
      requires forall t <- transactions - {transaction} :: t.Ready() && t.database == catalog.database
      requires catalog.database.InMemory? ==> transactions == {transaction}
      modifies this, catalog
      ensures Valid() && transactions == old(transactions) - {transaction}
    {
      transactions := transactions - {transaction};
      var released := catalog.ReleaseInMemoryDatabase();
      assert released;
    }
  }

}
