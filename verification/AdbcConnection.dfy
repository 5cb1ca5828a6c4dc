/** The connection and its session as objects (src/adbc/connection.rs and src/connection/session.rs).
    Each method changes the fields as the source does and is proved to make the step that
    `SessionMachine` gives its operation, so what is proved there of runs holds of these objects. */
module AdbcConnection {
  import opened Text
  import opened SessionMachine

  /** The transport and the server behind it. */
  class Transport {
    var server: Server
    const outcomes: Outcomes

    constructor (outcomes: Outcomes)
      ensures server == LOGGED_IN && this.outcomes == outcomes
    {
      server := LOGGED_IN;
      this.outcomes := outcomes;
    }

    method Send(request: Request) returns (reply: Reply)
      modifies this
      ensures server == Serve(old(server), request, outcomes) && reply == ReplyTo(old(server), outcomes)
    {
      reply := ReplyTo(server, outcomes);
      server := Serve(server, request, outcomes);
    }
  }

  class Session {
    var state: State
    var inTransaction: bool
    var queryCount: nat
    var timeout: Option<Duration>

    constructor (timeout: Option<Duration>)
      ensures Data() == SessionData(Ready, false, 0, timeout)
    {
      state, inTransaction, queryCount := Ready, false, 0;
      this.timeout := timeout;
    }

    function Data(): SessionData
      reads this
    {
      SessionData(state, inTransaction, queryCount, timeout)
    }

    method SetState(next: State)
      modifies this`state
      ensures state == next
    {
      state := next;
    }

    method IncrementQueryCount()
      modifies this`queryCount
      ensures queryCount == (old(queryCount) + 1) % (U64_MAX + 1)
    {
      queryCount := (queryCount + 1) % (U64_MAX + 1);
    }

    predicate ValidateReady()
      reads this
    {
      CanExecute(state)
    }

    /** Why a transaction cannot start; changes nothing. */
    method EnsureCanBeginTransaction() returns (refusal: Option<string>)
      ensures refusal == CannotBegin(Data())
    {
      if !ValidateReady() {
        return Some("Connection is closed");
      }
      if inTransaction {
        return Some("Transaction already active");
      }
      return None;
    }

    method BeginTransaction() returns (refusal: Option<string>)
      modifies this
      ensures refusal == CannotBegin(old(Data()))
      ensures Data() == if refusal.Some? then old(Data()) else old(Data()).(inTransaction := true, state := State.InTransaction)
    {
      refusal := EnsureCanBeginTransaction();
      if refusal.None? {
        inTransaction := true;
        SetState(State.InTransaction);
      }
    }

    /** Ends a transaction on the client, for a commit and a rollback alike. */
    method EndTransaction()
      modifies this
      ensures Data() == if old(inTransaction) then old(Data()).(inTransaction := false, state := Ready) else old(Data())
    {
      if !inTransaction {
        return;
      }
      inTransaction := false;
      SetState(Ready);
    }

    method Close()
      modifies this
      ensures Data() == old(Data()).(inTransaction := false, state := Closed)
    {
      SetState(Closing);
      if inTransaction {
        inTransaction := false;
      }
      SetState(Closed);
    }
  }

  class Connection {
    const session: Session
    const transport: Transport
    const configured: Option<Duration>

    constructor (session: Session, transport: Transport, configured: Option<Duration>)
      ensures this.session == session && this.transport == transport && this.configured == configured
    {
      this.session, this.transport, this.configured := session, transport, configured;
    }

    function View(): World
      reads session, transport
    {
      World(session.Data(), transport.server, configured)
    }

    method ExecuteStatement(stmt: Statement) returns (result: Result<Value, Failure>)
      modifies session, transport
      ensures (View(), result) == Execute(old(View()), stmt, transport.outcomes)
      ensures Kept(old(View()), View())
    {
      StepIsKept(View(), DoExecute(stmt), transport.outcomes);
      hide Kept, Serve, ReplyTo, MapExecutionError, ToResultSet, Target, Limit, StatementTimeout, CanExecute;
      ghost var start := View();
      if !session.ValidateReady() {
        return Err(InvalidState);
      }
      session.IncrementQueryCount();
      assert View() == Counted(start);
      if stmt.sql.None? {
        return Err(ParameterBinding);
      }
      var targetSecs := Target(stmt);
      var appliedSecs := Limit(session.timeout);
      var needsReconcile := targetSecs != appliedSecs;
      if needsReconcile {
        var pushed := transport.Send(SetQueryTimeout(targetSecs));
        if pushed.failure.Some? {
          return Err(ExecutionFailed(pushed.failure.value));
        }
      }
      assert (View(), None) == Reconciled(Counted(start), targetSecs, transport.outcomes);
      var reply := transport.Send(Query(stmt.sql.value));
      if needsReconcile {
        session.timeout := StatementTimeout(stmt);
      }
      if reply.failure.Some? {
        return Err(MapExecutionError(reply.failure.value, Saturated(targetSecs * 1000)));
      }
      result := ToResultSet(reply.answer);
    }

    method ExecuteStatementUpdate(stmt: Statement) returns (result: Result<Value, Failure>)
      modifies session, transport
      ensures (View(), result) == ExecuteUpdate(old(View()), stmt, transport.outcomes)
      ensures Kept(old(View()), View())
    {
      StepIsKept(View(), DoExecuteUpdate(stmt), transport.outcomes);
      hide Kept;
      hide Execute;
      result := ExecuteStatement(stmt);
      if result.Ok? && result.value.Rows? {
        result := Err(NoResultSet);
      }
    }

    method BeginTransaction() returns (result: Result<Value, Failure>)
      modifies session, transport
      ensures (View(), result) == Begin(old(View()), transport.outcomes)
      ensures Kept(old(View()), View())
    {
      StepIsKept(View(), DoBegin, transport.outcomes);
      hide Kept;
      var refusal := session.EnsureCanBeginTransaction();
      if refusal.Some? {
        return Err(TransactionError(refusal.value));
      }
      var reply := transport.Send(SetAutocommit(false));
      if reply.failure.Some? {
        return Err(TransactionError(reply.failure.value));
      }
      var late := session.BeginTransaction();
      result := match late case Some(message) => Err(TransactionError(message)) case None => Ok(Unit);
    }

    method Commit() returns (result: Result<Value, Failure>)
      modifies session, transport
      ensures (View(), result) == Finish(old(View()), "COMMIT", transport.outcomes)
      ensures Kept(old(View()), View())
    {
      StepIsKept(View(), DoCommit, transport.outcomes);
      hide Kept;
      hide Execute;
      if !session.inTransaction {
        return Ok(Unit);
      }
      ExecuteTouchesNoTransaction(View(), CreateStatement("COMMIT", configured), transport.outcomes);
      result := ExecuteStatementUpdate(CreateStatement("COMMIT", configured));
      if result.Ok? {
        session.EndTransaction();
        result := Ok(Unit);
      }
    }

    method Rollback() returns (result: Result<Value, Failure>)
      modifies session, transport
      ensures (View(), result) == Finish(old(View()), "ROLLBACK", transport.outcomes)
      ensures Kept(old(View()), View())
    {
      StepIsKept(View(), DoRollback, transport.outcomes);
      hide Kept;
      hide Execute;
      if !session.inTransaction {
        return Ok(Unit);
      }
      ExecuteTouchesNoTransaction(View(), CreateStatement("ROLLBACK", configured), transport.outcomes);
      result := ExecuteStatementUpdate(CreateStatement("ROLLBACK", configured));
      if result.Ok? {
        session.EndTransaction();
        result := Ok(Unit);
      }
    }

    method Shutdown() returns (result: Result<Value, Failure>)
      modifies session, transport
      ensures (View(), result) == SessionMachine.Shutdown(old(View()), transport.outcomes)
      ensures Kept(old(View()), View())
    {
      StepIsKept(View(), DoShutdown, transport.outcomes);
      hide Kept;
      session.Close();
      var reply := transport.Send(Request.Close);
      result := if reply.failure.Some? then Err(ConnectionFailed(reply.failure.value)) else Ok(Unit);
    }

    method SetSchema(name: string) returns (result: Result<Value, Failure>)
      modifies transport
      ensures (View(), result) == SessionMachine.SetSchema(old(View()), name, transport.outcomes)
      ensures Kept(old(View()), View())
    {
      StepIsKept(View(), DoSetSchema(name), transport.outcomes);
      hide Kept;
      if !session.ValidateReady() {
        return Err(InvalidState);
      }
      var reply := transport.Send(SetCurrentSchema(name));
      result := if reply.failure.Some? then Err(ExecutionFailed(reply.failure.value)) else Ok(Unit);
    }

    method Prepare(sql: string) returns (result: Result<Value, Failure>)
      modifies transport
      ensures (View(), result) == SessionMachine.Prepare(old(View()), sql, transport.outcomes)
      ensures Kept(old(View()), View())
    {
      StepIsKept(View(), DoPrepare(sql), transport.outcomes);
      hide Kept;
      if !session.ValidateReady() {
        return Err(InvalidState);
      }
      var reply := transport.Send(CreatePrepared(sql));
      result := if reply.failure.Some? then Err(ExecutionFailed(reply.failure.value)) else Ok(NewHandle(reply.handle));
    }

    /** The common part of the four prepared executions. */
    method SendPrepared(call: PreparedCall, stmt: Prepared) returns (result: Result<Value, Failure>)
      modifies session`queryCount, transport
      ensures (View(), result) == RunPrepared(old(View()), call, stmt, transport.outcomes)
      ensures Kept(old(View()), View())
      ensures !CountsAsQuery(call) ==> session.queryCount == old(session.queryCount)
    {
      StepIsKept(View(), DoRunPrepared(call, stmt), transport.outcomes);
      hide Kept;
      if stmt.closed {
        return Err(StatementClosed);
      }
      if !session.ValidateReady() {
        return Err(InvalidState);
      }
      if CountsAsQuery(call) {
        session.IncrementQueryCount();
      }
      if stmt.parameters.None? {
        return Err(ParameterBinding);
      }
      var reply := transport.Send(Request.ExecutePrepared(stmt.handle, stmt.parameters.value));
      if reply.failure.Some? {
        return Err(ExecutionFailed(reply.failure.value));
      }
      result := if CountsAsQuery(call) then ToResultSet(reply.answer) else ToRowCount(reply.answer);
    }

    /** A prepared execution that wants rows. */
    method ExecutePrepared(stmt: Prepared) returns (result: Result<Value, Failure>)
      modifies session`queryCount, transport
      ensures (View(), result) == RunPrepared(old(View()), ForRows, stmt, transport.outcomes)
      ensures Kept(old(View()), View())
    {
      hide Kept, RunPrepared;
      result := SendPrepared(ForRows, stmt);
    }

    /** A prepared execution that wants a row count; it is not counted as a query. */
    method ExecutePreparedUpdate(stmt: Prepared) returns (result: Result<Value, Failure>)
      modifies session`queryCount, transport
      ensures (View(), result) == RunPrepared(old(View()), ForUpdate, stmt, transport.outcomes)
      ensures Kept(old(View()), View())
    {
      hide Kept, RunPrepared;
      result := SendPrepared(ForUpdate, stmt);
    }

    /** Many parameter rows at once, for rows; `stmt.parameters` are the batch's. */
    method ExecuteBatch(stmt: Prepared) returns (result: Result<Value, Failure>)
      modifies session`queryCount, transport
      ensures (View(), result) == RunPrepared(old(View()), ForBatch, stmt, transport.outcomes)
      ensures Kept(old(View()), View())
    {
      hide Kept, RunPrepared;
      result := SendPrepared(ForBatch, stmt);
    }

    /** Many parameter rows at once, for a row count. */
    method ExecuteBatchUpdate(stmt: Prepared) returns (result: Result<Value, Failure>)
      modifies session`queryCount, transport
      ensures (View(), result) == RunPrepared(old(View()), ForBatchUpdate, stmt, transport.outcomes)
      ensures Kept(old(View()), View())
    {
      hide Kept, RunPrepared;
      result := SendPrepared(ForBatchUpdate, stmt);
    }

    method ClosePrepared(stmt: Prepared) returns (result: Result<Value, Failure>)
      modifies transport
      ensures (View(), result) == SessionMachine.ClosePrepared(old(View()), stmt, transport.outcomes)
      ensures Kept(old(View()), View())
    {
      StepIsKept(View(), DoClosePrepared(stmt), transport.outcomes);
      hide Kept;
      if stmt.closed {
        return Ok(Unit);
      }
      var reply := transport.Send(DropPrepared(stmt.handle));
      result := if reply.failure.Some? then Err(ExecutionFailed(reply.failure.value)) else Ok(Unit);
    }

    method ExecutorRun(sql: string) returns (result: Result<Value, Failure>)
      modifies transport
      ensures (View(), result) == RunExecutor(old(View()), sql, transport.outcomes)
      ensures Kept(old(View()), View())
    {
      StepIsKept(View(), DoRunExecutor(sql), transport.outcomes);
      hide Kept;
      var reply := transport.Send(Query(sql));
      if reply.failure.Some? {
        return Err(ExecutionFailed(reply.failure.value));
      }
      result := match reply.answer case RowCount(count) => Ok(Affected(count)) case ResultSet(_) => Ok(Affected(0));
    }
  }

  /** Connecting over a transport that has just logged in. */
  method ConnectWithTransport(transport: Transport, configured: Option<Duration>, schema: Option<string>)
    returns (connection: Option<Connection>, result: Result<Value, Failure>)
    requires transport.server == LOGGED_IN
    modifies transport
    ensures result == Connect(configured, schema, transport.outcomes).1
    ensures transport.server == Connect(configured, schema, transport.outcomes).0.server
    ensures connection.Some? <==> result.Ok?
    ensures connection.Some? ==> fresh(connection.value.session) && connection.value.transport == transport
    ensures connection.Some? ==> connection.value.View() == Connect(configured, schema, transport.outcomes).0
    ensures connection.Some? ==> Consistent(connection.value.View()) && Agree(connection.value.View())
  {
    hide SecsCeil, SessionMachine.SetSchema, SessionMachine.Shutdown;
    if configured.Some? {
      var reply := transport.Send(SetQueryTimeout(SecsCeil(configured.value)));
      if reply.failure.Some? {
        return None, Err(ConnectionFailed(reply.failure.value));
      }
    }
    var session := new Session(configured);
    var made := new Connection(session, transport, configured);
    if schema.Some? {
      var named := made.SetSchema(schema.value);
      if named.Err? {
        var ignored := made.Shutdown();
        return None, Err(ConnectionFailed("schema"));
      }
    }
    ConnectAgrees(configured, schema, transport.outcomes);
    return Some(made), Ok(Unit);
  }

  /** The connection of the C interface, with its own autocommit switch. */
  class FfiConnection {
    const connection: Connection
    var autoCommit: bool

    constructor (connection: Connection)
      ensures this.connection == connection && autoCommit
    {
      this.connection, autoCommit := connection, true;
    }

    function View(): FfiWorld
      reads this, connection.session, connection.transport
    {
      FfiWorld(autoCommit, connection.View())
    }

    method ApplyAutoCommit(enabled: bool) returns (result: Result<Value, Failure>)
      modifies this, connection.session, connection.transport
      ensures (View(), result) == SessionMachine.ApplyAutoCommit(old(View()), enabled, connection.transport.outcomes)
      ensures Kept(old(connection.View()), connection.View())
    {
      FfiStepIsKept(View(), SetAutoCommit(enabled), connection.transport.outcomes);
      hide Kept;
      hide Begin, Finish;
      var wasEnabled := autoCommit;
      autoCommit := enabled;
      if wasEnabled == enabled {
        return Ok(Unit);
      }
      if enabled {
        result := CommitOpenTransaction();
      } else {
        result := connection.BeginTransaction();
      }
    }

    method ExecuteStatement(stmt: Statement) returns (result: Result<Value, Failure>)
      modifies connection.session, connection.transport
      ensures (View(), result) == FfiDo(old(View()), FfiExecute(stmt), connection.transport.outcomes)
      ensures Kept(old(connection.View()), connection.View())
    {
      FfiStepIsKept(View(), FfiExecute(stmt), connection.transport.outcomes);
      hide Kept;
      hide Execute;
      result := connection.ExecuteStatement(stmt);
    }

    method CommitOpenTransaction() returns (result: Result<Value, Failure>)
      modifies connection.session, connection.transport
      ensures (connection.View(), result) == Finish(old(connection.View()), "COMMIT", connection.transport.outcomes)
    {
      hide ExecuteUpdate;
      if connection.session.inTransaction {
        result := connection.Commit();
      } else {
        result := Ok(Unit);
      }
    }

    method Commit() returns (result: Result<Value, Failure>)
      modifies connection.session, connection.transport
      ensures (View(), result) == FfiFinish(old(View()), "COMMIT", connection.transport.outcomes)
      ensures Kept(old(connection.View()), connection.View())
    {
      FfiStepIsKept(View(), FfiCommit, connection.transport.outcomes);
      hide Kept;
      hide Finish;
      if autoCommit {
        return Err(InvalidState);
      }
      result := connection.Commit();
    }

    method Rollback() returns (result: Result<Value, Failure>)
      modifies connection.session, connection.transport
      ensures (View(), result) == FfiFinish(old(View()), "ROLLBACK", connection.transport.outcomes)
      ensures Kept(old(connection.View()), connection.View())
    {
      FfiStepIsKept(View(), FfiRollback, connection.transport.outcomes);
      hide Kept;
      hide Finish;
      if autoCommit {
        return Err(InvalidState);
      }
      result := connection.Rollback();
    }
  }
}
