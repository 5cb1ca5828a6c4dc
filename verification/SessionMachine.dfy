/** The connection as a state machine over its requests (src/adbc/connection.rs:45-79, 198-214,
    299-379, 398-666, 690-870, 1096-1145 and src/connection/session.rs:62-260).

    The server answers the n-th request as `outcomes(n)` says, and may refuse any of them. A refused
    request may still have taken effect. Every result below holds for all such answers. */
module SessionMachine {
  import opened Text

  // ---------------------------------------------------------------------------------------------
  // Durations
  // ---------------------------------------------------------------------------------------------

  const U64_MAX := 0xFFFF_FFFF_FFFF_FFFF

  datatype Duration = Duration(secs: nat, nanos: nat)

  predicate IsDuration(d: Duration) { d.secs <= U64_MAX && d.nanos < 1_000_000_000 }

  function Saturated(n: nat): nat { if n > U64_MAX then U64_MAX else n }

  /** Whole seconds, rounded up. */
  function SecsCeil(d: Duration): nat { if d.nanos > 0 then Saturated(d.secs + 1) else d.secs }

  function FromMillis(ms: nat): (d: Duration)
    ensures ms <= U64_MAX ==> IsDuration(d)
    ensures d.secs * 1_000_000_000 + d.nanos == ms * 1_000_000
  {
    Duration(ms / 1000, ms % 1000 * 1_000_000)
  }

  /** The timeout a statement inherits from the connection, in milliseconds. */
  function InheritedMillis(d: Duration): nat { Saturated(d.secs * 1000 + d.nanos / 1_000_000) }

  /** The server-side limit for a timeout; 0 is no limit. */
  function Limit(timeout: Option<Duration>): nat { if timeout.None? then 0 else SecsCeil(timeout.value) }

  // ---------------------------------------------------------------------------------------------
  // The server
  // ---------------------------------------------------------------------------------------------

  datatype Answer = RowCount(count: int) | ResultSet(readable: bool)

  /** `failure` is the error message of a refused request, which took effect just when `applied`. */
  datatype Reply = Reply(failure: Option<string>, applied: bool, answer: Answer, handle: nat)

  type Outcomes = nat -> Reply

  datatype Request =
    | SetQueryTimeout(secs: nat)
    | SetAutocommit(enabled: bool)
    | SetCurrentSchema(name: string)
    | Query(sql: string)
    | CreatePrepared(text: string)
    | ExecutePrepared(handle: nat, parameters: string)
    | DropPrepared(handle: nat)
    | Close

  /** A request as it was served, with the limit in force at that moment. */
  datatype Served = Served(request: Request, reply: Reply, limit: Option<nat>)

  /** `limit` is the last query timeout pushed, absent before any push, when the server's own default
      governs; `pending` is uncommitted work. */
  datatype Server = Server(limit: Option<nat>, autocommit: bool, pending: bool, log: seq<Served>)

  predicate TakesEffect(reply: Reply) { reply.failure.None? || reply.applied }

  predicate EndsTransaction(sql: string) { sql == "COMMIT" || sql == "ROLLBACK" }

  function Effect(server: Server, request: Request): Server {
    match request
    case SetQueryTimeout(secs) => server.(limit := Some(secs))
    case SetAutocommit(enabled) => server.(autocommit := enabled, pending := server.pending && !enabled)
    case Query(sql) => server.(pending := if EndsTransaction(sql) then false else !server.autocommit)
    case ExecutePrepared(_, _) => server.(pending := !server.autocommit)
    case Close => server.(pending := false)
    case _ => server
  }

  function ReplyTo(server: Server, outcomes: Outcomes): Reply { outcomes(|server.log|) }

  /** The server after it has served `request`. */
  function Serve(server: Server, request: Request, outcomes: Outcomes): (next: Server)
    ensures server.log <= next.log && |next.log| == |server.log| + 1
  {
    var reply := ReplyTo(server, outcomes);
    (if TakesEffect(reply) then Effect(server, request) else server)
      .(log := server.log + [Served(request, reply, server.limit)])
  }

  // ---------------------------------------------------------------------------------------------
  // The session and its operations
  // ---------------------------------------------------------------------------------------------

  datatype State = Ready | InTransaction | Closing | Closed

  predicate CanExecute(state: State) { state.Ready? || state.InTransaction? }

  /** `timeout` is the reconcile baseline: what the client believes the server enforces. */
  datatype SessionData = SessionData(state: State, inTransaction: bool, queryCount: nat, timeout: Option<Duration>)

  /** `configured` is the query timeout of the connection parameters. */
  datatype World = World(session: SessionData, server: Server, configured: Option<Duration>)

  /** `sql` is the final text, absent when a parameter is missing or unprintable. */
  datatype Statement = Statement(sql: Option<string>, timeoutMs: Option<nat>)

  predicate IsStatement(stmt: Statement) { stmt.timeoutMs.Some? ==> stmt.timeoutMs.value <= U64_MAX }

  datatype Prepared = Prepared(handle: nat, closed: bool, parameters: Option<string>)

  datatype PreparedCall = ForRows | ForUpdate | ForBatch | ForBatchUpdate

  datatype Value = Affected(count: int) | Rows | NewHandle(id: nat) | Unit

  datatype Failure =
    | InvalidState
    | StatementClosed
    | ParameterBinding
    | ExecutionFailed(message: string)
    | Timeout(timeoutMs: nat)
    | NoResultSet
    | UnexpectedResultSet
    | TransactionError(message: string)
    | ConnectionFailed(message: string)

  function CreateStatement(sql: string, configured: Option<Duration>): Statement {
    Statement(Some(sql), if configured.None? then None else Some(InheritedMillis(configured.value)))
  }

  function StatementTimeout(stmt: Statement): Option<Duration> {
    if stmt.timeoutMs.None? then None else Some(FromMillis(stmt.timeoutMs.value))
  }

  /** The limit a statement asks the server to run it under. */
  function Target(stmt: Statement): nat { Limit(StatementTimeout(stmt)) }

  predicate IsTimeoutMessage(message: string) {
    Find(message, "R0001").Some? || Find(message, "Query terminated because timeout has been reached").Some?
  }

  function MapExecutionError(message: string, timeoutMs: nat): Failure {
    if timeoutMs > 0 && IsTimeoutMessage(message) then Timeout(timeoutMs) else ExecutionFailed(message)
  }

  function ToResultSet(answer: Answer): Result<Value, Failure> {
    match answer
    case RowCount(count) => Ok(Affected(count))
    case ResultSet(readable) => if readable then Ok(Rows) else Err(ExecutionFailed("conversion"))
  }

  function ToRowCount(answer: Answer): Result<Value, Failure> {
    match answer case RowCount(count) => Ok(Affected(count)) case ResultSet(_) => Err(UnexpectedResultSet)
  }

  type Step = (World, Result<Value, Failure>)

  function Counted(w: World): World { w.(session := w.session.(queryCount := (w.session.queryCount + 1) % (U64_MAX + 1))) }

  /** Sends one request whose failure is reported as `wrap` says. */
  function Ask(w: World, request: Request, outcomes: Outcomes): (World, Reply) {
    (w.(server := Serve(w.server, request, outcomes)), ReplyTo(w.server, outcomes))
  }

  /** The push of a limit that differs from the baseline's. */
  function Reconciled(w: World, target: nat, outcomes: Outcomes): (World, Option<string>) {
    if target == Limit(w.session.timeout) then (w, None)
    else
      var (pushed, reply) := Ask(w, SetQueryTimeout(target), outcomes);
      (pushed, reply.failure)
  }

  function Execute(w: World, stmt: Statement, outcomes: Outcomes): Step {
    if !CanExecute(w.session.state) then (w, Err(InvalidState))
    else
      var counted := Counted(w);
      if stmt.sql.None? then (counted, Err(ParameterBinding))
      else
        var target := Target(stmt);
        var (ready, refused) := Reconciled(counted, target, outcomes);
        if refused.Some? then (ready, Err(ExecutionFailed(refused.value)))
        else
          var (done, reply) := Ask(ready, Query(stmt.sql.value), outcomes);
          var recorded :=
            if target == Limit(w.session.timeout) then done
            else done.(session := done.session.(timeout := StatementTimeout(stmt)));
          (recorded,
           if reply.failure.Some? then Err(MapExecutionError(reply.failure.value, Saturated(target * 1000)))
           else ToResultSet(reply.answer))
  }

  function ExecuteUpdate(w: World, stmt: Statement, outcomes: Outcomes): Step {
    var (done, result) := Execute(w, stmt, outcomes);
    (done, if result.Ok? && result.value.Rows? then Err(NoResultSet) else result)
  }

  /** Why a transaction cannot start, if it cannot. */
  function CannotBegin(session: SessionData): Option<string> {
    if !CanExecute(session.state) then Some("Connection is closed")
    else if session.inTransaction then Some("Transaction already active")
    else None
  }

  function Begin(w: World, outcomes: Outcomes): Step {
    if CannotBegin(w.session).Some? then (w, Err(TransactionError(CannotBegin(w.session).value)))
    else
      var (asked, reply) := Ask(w, SetAutocommit(false), outcomes);
      if reply.failure.Some? then (asked, Err(TransactionError(reply.failure.value)))
      else (asked.(session := asked.session.(inTransaction := true, state := InTransaction)), Ok(Unit))
  }

  /** `COMMIT` or `ROLLBACK`, and back to `Ready`. */
  function Finish(w: World, sql: string, outcomes: Outcomes): Step {
    if !w.session.inTransaction then (w, Ok(Unit))
    else
      var (done, result) := ExecuteUpdate(w, CreateStatement(sql, w.configured), outcomes);
      if result.Err? then (done, result)
      else (done.(session := done.session.(inTransaction := false, state := Ready)), Ok(Unit))
  }

  function Shutdown(w: World, outcomes: Outcomes): Step {
    var (asked, reply) := Ask(w.(session := w.session.(inTransaction := false, state := Closed)), Close, outcomes);
    (asked, if reply.failure.Some? then Err(ConnectionFailed(reply.failure.value)) else Ok(Unit))
  }

  function SetSchema(w: World, name: string, outcomes: Outcomes): Step {
    if !CanExecute(w.session.state) then (w, Err(InvalidState))
    else
      var (asked, reply) := Ask(w, SetCurrentSchema(name), outcomes);
      (asked, if reply.failure.Some? then Err(ExecutionFailed(reply.failure.value)) else Ok(Unit))
  }

  function Prepare(w: World, sql: string, outcomes: Outcomes): Step {
    if !CanExecute(w.session.state) then (w, Err(InvalidState))
    else
      var (asked, reply) := Ask(w, CreatePrepared(sql), outcomes);
      (asked, if reply.failure.Some? then Err(ExecutionFailed(reply.failure.value)) else Ok(NewHandle(reply.handle)))
  }

  /** The calls that want rows count as queries; the ones that want a row count do not. */
  predicate CountsAsQuery(call: PreparedCall) { call.ForRows? || call.ForBatch? }

  function RunPrepared(w: World, call: PreparedCall, stmt: Prepared, outcomes: Outcomes): Step {
    if stmt.closed then (w, Err(StatementClosed))
    else if !CanExecute(w.session.state) then (w, Err(InvalidState))
    else
      var counted := if CountsAsQuery(call) then Counted(w) else w;
      if stmt.parameters.None? then (counted, Err(ParameterBinding))
      else
        var (asked, reply) := Ask(counted, ExecutePrepared(stmt.handle, stmt.parameters.value), outcomes);
        (asked,
         if reply.failure.Some? then Err(ExecutionFailed(reply.failure.value))
         else if CountsAsQuery(call) then ToResultSet(reply.answer) else ToRowCount(reply.answer))
  }

  /** Closing a prepared statement looks at no session state. */
  function ClosePrepared(w: World, stmt: Prepared, outcomes: Outcomes): Step {
    if stmt.closed then (w, Ok(Unit))
    else
      var (asked, reply) := Ask(w, DropPrepared(stmt.handle), outcomes);
      (asked, if reply.failure.Some? then Err(ExecutionFailed(reply.failure.value)) else Ok(Unit))
  }

  /** The executor of imports and exports looks at no session state either, nor at any timeout. */
  function RunExecutor(w: World, sql: string, outcomes: Outcomes): Step {
    var (asked, reply) := Ask(w, Query(sql), outcomes);
    (asked,
     if reply.failure.Some? then Err(ExecutionFailed(reply.failure.value))
     else match reply.answer case RowCount(count) => Ok(Affected(count)) case ResultSet(_) => Ok(Affected(0)))
  }

  datatype Op =
    | DoExecute(stmt: Statement)
    | DoExecuteUpdate(stmt: Statement)
    | DoBegin
    | DoCommit
    | DoRollback
    | DoSetSchema(name: string)
    | DoPrepare(sql: string)
    | DoRunPrepared(call: PreparedCall, prepared: Prepared)
    | DoClosePrepared(prepared: Prepared)
    | DoRunExecutor(sql: string)
    | DoShutdown

  function Do(w: World, op: Op, outcomes: Outcomes): Step {
    match op
    case DoExecute(stmt) => Execute(w, stmt, outcomes)
    case DoExecuteUpdate(stmt) => ExecuteUpdate(w, stmt, outcomes)
    case DoBegin => Begin(w, outcomes)
    case DoCommit => Finish(w, "COMMIT", outcomes)
    case DoRollback => Finish(w, "ROLLBACK", outcomes)
    case DoSetSchema(name) => SetSchema(w, name, outcomes)
    case DoPrepare(sql) => Prepare(w, sql, outcomes)
    case DoRunPrepared(call, prepared) => RunPrepared(w, call, prepared, outcomes)
    case DoClosePrepared(prepared) => ClosePrepared(w, prepared, outcomes)
    case DoRunExecutor(sql) => RunExecutor(w, sql, outcomes)
    case DoShutdown => Shutdown(w, outcomes)
  }

  function Run(w: World, ops: seq<Op>, outcomes: Outcomes): World {
    if ops == [] then w else Do(Run(w, ops[..|ops| - 1], outcomes), ops[|ops| - 1], outcomes).0
  }

  /** A server right after login: autocommit is on and no timeout was pushed. */
  const LOGGED_IN := Server(None, true, false, [])

  /** Connecting, from a successful login on. */
  function Connect(configured: Option<Duration>, schema: Option<string>, outcomes: Outcomes): (World, Result<Value, Failure>) {
    var session := SessionData(Ready, false, 0, None);
    var start := World(session, LOGGED_IN, configured);
    var (pushed, reply) :=
      if configured.None? then (start, Reply(None, true, RowCount(0), 0))
      else Ask(start, SetQueryTimeout(SecsCeil(configured.value)), outcomes);
    if reply.failure.Some? then (pushed, Err(ConnectionFailed(reply.failure.value)))
    else
      var seeded := pushed.(session := session.(timeout := configured));
      if schema.None? then (seeded, Ok(Unit))
      else
        var (w, result) := SetSchema(seeded, schema.value, outcomes);
        if result.Ok? then (w, Ok(Unit)) else (Shutdown(w, outcomes).0, Err(ConnectionFailed("schema")))
  }

  // ---------------------------------------------------------------------------------------------
  // Timeouts over whole runs
  // ---------------------------------------------------------------------------------------------

  /** No refused push of a timeout took effect. */
  predicate PushesHonest(log: seq<Served>) {
    forall s :: s in log && s.request.SetQueryTimeout? && s.reply.failure.Some? ==> !s.reply.applied
  }

  /** The limit last pushed is the ceiling of the client's baseline; before any push it has none. */
  predicate Agree(w: World) {
    if w.server.limit.None? then w.session.timeout.None? else w.server.limit.value == Limit(w.session.timeout)
  }

  lemma HonestPrefix(log: seq<Served>, longer: seq<Served>)
    requires log <= longer && PushesHonest(longer)
    ensures PushesHonest(log)
  {
    assert forall s :: s in log ==> s in longer;
  }

  lemma LogGrows(w: World, op: Op, outcomes: Outcomes)
    ensures w.server.log <= Do(w, op, outcomes).0.server.log
  {
    hide Effect, MapExecutionError, SecsCeil, InheritedMillis, FromMillis, ToResultSet, ToRowCount;
  }

  /** The statement an operation executes, if it executes one under a limit. */
  function ExecutedStatement(w: World, op: Op): Option<Statement> {
    match op
    case DoExecute(stmt) => Some(stmt)
    case DoExecuteUpdate(stmt) => Some(stmt)
    case DoCommit => Some(CreateStatement("COMMIT", w.configured))
    case DoRollback => Some(CreateStatement("ROLLBACK", w.configured))
    case _ => None
  }

  /** The limit in force is the one wanted; none may be in force only when none is wanted. */
  predicate Enforces(limit: Option<nat>, target: nat) { if limit.None? then target == 0 else limit.value == target }

  /** The queries among `served` ran under the limit `target`. */
  predicate QueriesRanUnder(served: seq<Served>, target: nat) {
    forall s :: s in served && s.request.Query? ==> Enforces(s.limit, target)
  }

  /** What an operation added to the log. */
  function Added(before: World, after: World): seq<Served>
    requires before.server.log <= after.server.log
  {
    after.server.log[|before.server.log|..]
  }

  lemma AddedIsHonest(before: World, after: World)
    requires before.server.log <= after.server.log && PushesHonest(after.server.log)
    ensures PushesHonest(Added(before, after))
  {
  }

  lemma ExecuteAgreesIff(w: World, stmt: Statement, outcomes: Outcomes)
    requires Agree(w)
    ensures var after := Execute(w, stmt, outcomes).0;
            w.server.log <= after.server.log && (Agree(after) <==> PushesHonest(Added(w, after))) &&
            (Agree(after) ==> QueriesRanUnder(Added(w, after), Target(stmt)))
  {
    hide MapExecutionError, SecsCeil, FromMillis, ToResultSet;
    if CanExecute(w.session.state) && stmt.sql.Some? {
      var target := Target(stmt);
      var (ready, refused) := Reconciled(Counted(w), target, outcomes);
      var after := Execute(w, stmt, outcomes).0;
      assert ready.server.log <= after.server.log;
      if target != Limit(w.session.timeout) {
        var pushed := ready.server.log[|w.server.log|];
        assert pushed == Added(w, after)[0];
      }
    }
  }

  lemma FinishAgreesIff(w: World, sql: string, outcomes: Outcomes)
    requires Agree(w)
    ensures var after := Finish(w, sql, outcomes).0;
            w.server.log <= after.server.log && (Agree(after) <==> PushesHonest(Added(w, after))) &&
            (Agree(after) ==> QueriesRanUnder(Added(w, after), Target(CreateStatement(sql, w.configured))))
  {
    hide Execute, Target, SecsCeil;
    if w.session.inTransaction {
      ExecuteAgreesIff(w, CreateStatement(sql, w.configured), outcomes);
    }
  }

  /** Between the two, no push was sent and the limit stayed. */
  predicate PushedNothing(before: Server, after: Server) {
    before.log <= after.log && after.limit == before.limit &&
    forall s :: s in after.log[|before.log|..] ==> !s.request.SetQueryTimeout?
  }

  lemma ServePushesNothing(server: Server, request: Request, outcomes: Outcomes)
    requires !request.SetQueryTimeout?
    ensures PushedNothing(server, Serve(server, request, outcomes))
  {
  }

  lemma OtherStepPushesNothing(w: World, op: Op, outcomes: Outcomes)
    requires ExecutedStatement(w, op).None?
    ensures var after := Do(w, op, outcomes).0;
            PushedNothing(w.server, after.server) && after.session.timeout == w.session.timeout
  {
    assert PushedNothing(w.server, w.server);
    hide Serve, PushedNothing, ToResultSet, ToRowCount;
    match op
    case DoBegin => ServePushesNothing(w.server, SetAutocommit(false), outcomes);
    case DoSetSchema(name) => ServePushesNothing(w.server, SetCurrentSchema(name), outcomes);
    case DoPrepare(sql) => ServePushesNothing(w.server, CreatePrepared(sql), outcomes);
    case DoRunPrepared(_, prepared) =>
      if prepared.parameters.Some? {
        ServePushesNothing(w.server, ExecutePrepared(prepared.handle, prepared.parameters.value), outcomes);
      }
    case DoClosePrepared(prepared) => ServePushesNothing(w.server, DropPrepared(prepared.handle), outcomes);
    case DoRunExecutor(sql) => ServePushesNothing(w.server, Query(sql), outcomes);
    case DoShutdown => ServePushesNothing(w.server, Close, outcomes);
    case _ =>
  }

  /** From an agreement, one operation keeps it exactly when no push that it made took effect although
      it was refused; and then its queries run under its own statement's limit. */
  lemma StepAgreesIff(w: World, op: Op, outcomes: Outcomes)
    requires Agree(w)
    ensures var after := Do(w, op, outcomes).0;
            w.server.log <= after.server.log && (Agree(after) <==> PushesHonest(Added(w, after))) &&
            (Agree(after) && ExecutedStatement(w, op).Some? ==>
               QueriesRanUnder(Added(w, after), Target(ExecutedStatement(w, op).value)))
  {
    hide Execute, Finish, Target, QueriesRanUnder;
    match op
    case DoExecute(stmt) => ExecuteAgreesIff(w, stmt, outcomes);
    case DoExecuteUpdate(stmt) => ExecuteAgreesIff(w, stmt, outcomes);
    case DoCommit => FinishAgreesIff(w, "COMMIT", outcomes);
    case DoRollback => FinishAgreesIff(w, "ROLLBACK", outcomes);
    case _ =>
      hide Do;
      OtherStepPushesNothing(w, op, outcomes);
  }

  /** Over every run the last pushed limit is the ceiling of the baseline. */
  lemma {:induction false} RunsAgree(w: World, ops: seq<Op>, outcomes: Outcomes)
    requires Agree(w) && PushesHonest(Run(w, ops, outcomes).server.log)
    ensures Agree(Run(w, ops, outcomes))
  {
    hide Do, PushesHonest, Agree;
    if ops != [] {
      var before, op := Run(w, ops[..|ops| - 1], outcomes), ops[|ops| - 1];
      LogGrows(before, op, outcomes);
      HonestPrefix(before.server.log, Do(before, op, outcomes).0.server.log);
      RunsAgree(w, ops[..|ops| - 1], outcomes);
      AddedIsHonest(before, Do(before, op, outcomes).0);
      StepAgreesIff(before, op, outcomes);
    }
  }

  /** A successful connect starts a run in agreement. */
  lemma ConnectAgrees(configured: Option<Duration>, schema: Option<string>, outcomes: Outcomes)
    requires Connect(configured, schema, outcomes).1.Ok?
    ensures Agree(Connect(configured, schema, outcomes).0)
  {
    hide SecsCeil;
  }

  /** Whatever ran before, every query of a statement runs under the ceiling of its own timeout. */
  lemma EveryQueryRunsUnderItsOwnLimit(
    configured: Option<Duration>, schema: Option<string>, ops: seq<Op>, op: Op, outcomes: Outcomes)
    requires Connect(configured, schema, outcomes).1.Ok?
    requires var w := Run(Connect(configured, schema, outcomes).0, ops, outcomes);
             ExecutedStatement(w, op).Some? && PushesHonest(Do(w, op, outcomes).0.server.log)
    ensures var w := Run(Connect(configured, schema, outcomes).0, ops, outcomes);
            var after := Do(w, op, outcomes).0;
            Agree(after) && w.server.log <= after.server.log &&
            QueriesRanUnder(Added(w, after), Target(ExecutedStatement(w, op).value))
  {
    hide Do, Connect, PushesHonest, Agree, QueriesRanUnder;
    ConnectAgrees(configured, schema, outcomes);
    var w := Run(Connect(configured, schema, outcomes).0, ops, outcomes);
    LogGrows(w, op, outcomes);
    HonestPrefix(w.server.log, Do(w, op, outcomes).0.server.log);
    RunsAgree(Connect(configured, schema, outcomes).0, ops, outcomes);
    AddedIsHonest(w, Do(w, op, outcomes).0);
    StepAgreesIff(w, op, outcomes);
  }

  /** A refused push that took effect anyway leaves the baseline stale. */
  lemma StaleBaseline()
    ensures var w := World(SessionData(Ready, false, 0, None), LOGGED_IN, None);
            var outcomes: Outcomes := n => Reply(if n == 0 then Some("lost") else None, true, RowCount(0), 0);
            Agree(w) && !Agree(Run(w, [DoExecute(Statement(Some("SELECT 1"), Some(1000)))], outcomes))
  {
    var w := World(SessionData(Ready, false, 0, None), LOGGED_IN, None);
    var outcomes: Outcomes := n => Reply(if n == 0 then Some("lost") else None, true, RowCount(0), 0);
    var op := DoExecute(Statement(Some("SELECT 1"), Some(1000)));
    assert [op][..0] == [];
    assert Run(w, [op], outcomes) == Do(w, op, outcomes).0;
    assert Target(op.stmt) == 1;
  }

  // ---------------------------------------------------------------------------------------------
  // What a call answers
  // ---------------------------------------------------------------------------------------------

  /** `part` stands at some position of `text`. */
  predicate Stands(part: string, text: string) { exists i :: 0 <= i <= |text| && part <= text[i..] }

  /** The request that was served last. */
  function LastServed(server: Server): Served
    requires server.log != []
  {
    server.log[|server.log| - 1]
  }

  lemma FoundIffStands(text: string, part: string)
    ensures Find(text, part).Some? <==> Stands(part, text)
  {
    var at := Find(text, part);
    if at.Some? { assert part <= text[at.value..]; }
  }

  /** Nothing is sent unless the session is ready or in a transaction and the statement has its text. */
  lemma ExecuteSendsNothing(w: World, stmt: Statement, outcomes: Outcomes)
    ensures var (after, result) := Execute(w, stmt, outcomes);
            after.server.log == w.server.log <==> w.session.state in {Closing, Closed} || stmt.sql.None?
    ensures var (after, result) := Execute(w, stmt, outcomes);
            (w.session.state in {Closing, Closed} ==> after == w && result == Err(InvalidState)) &&
            (w.session.state in {Ready, InTransaction} ==>
               after.session.queryCount == (w.session.queryCount + 1) % 0x1_0000_0000_0000_0000 &&
               (stmt.sql.None? ==> result == Err(ParameterBinding)))
  {
    hide Effect, MapExecutionError, ToResultSet, Target, Limit, StatementTimeout;
  }

  /** What the caller learns, in terms of the request served last. A query that the server refuses is a
      timeout exactly when the statement ran under a limit and the message has one of the two marks; any
      other refusal is passed on; and an answer is the server's row count or rows. */
  lemma ExecuteAnswers(w: World, stmt: Statement, outcomes: Outcomes)
    requires |Execute(w, stmt, outcomes).0.server.log| > |w.server.log|
    ensures var (after, result) := Execute(w, stmt, outcomes);
            var last := LastServed(after.server);
            (last.request.Query? || last.request.SetQueryTimeout?) && stmt.sql.Some? &&
            if last.request.SetQueryTimeout? then last.reply.failure.Some? && result == Err(ExecutionFailed(last.reply.failure.value))
            else
              last.request == Query(stmt.sql.value) &&
              match last.reply.failure
              case Some(message) =>
                var timedOut := Target(stmt) > 0 &&
                  (Stands("R0001", message) || Stands("Query terminated because timeout has been reached", message));
                result == Err(if timedOut then Timeout(Saturated(1000 * Target(stmt))) else ExecutionFailed(message))
              case None =>
                match last.reply.answer
                case RowCount(count) => result == Ok(Affected(count))
                case ResultSet(readable) => result == if readable then Ok(Rows) else Err(ExecutionFailed("conversion"))
  {
    hide Effect, Target, Limit, StatementTimeout, Stands, Find;
    var last := LastServed(Execute(w, stmt, outcomes).0.server);
    if last.reply.failure.Some? {
      var message := last.reply.failure.value;
      FoundIffStands(message, "R0001");
      FoundIffStands(message, "Query terminated because timeout has been reached");
    }
  }

  /** A prepared call that is sent answers what the server does: rows or a row count for the calls that
      want rows, only a row count for the others, and these are not counted as queries. */
  lemma PreparedAnswers(w: World, call: PreparedCall, stmt: Prepared, outcomes: Outcomes)
    ensures var (after, result) := RunPrepared(w, call, stmt, outcomes);
            var refused := stmt.closed || w.session.state in {Closing, Closed};
            (after.server.log == w.server.log <==> refused || stmt.parameters.None?) &&
            (stmt.closed ==> result == Err(StatementClosed)) &&
            (!stmt.closed && refused ==> result == Err(InvalidState)) &&
            (!refused && stmt.parameters.None? ==> result == Err(ParameterBinding)) &&
            (after.session.queryCount ==
               if !refused && call in {ForRows, ForBatch} then (w.session.queryCount + 1) % 0x1_0000_0000_0000_0000
               else w.session.queryCount) &&
            (!refused && stmt.parameters.Some? ==>
               after.server.log != [] &&
               var last := LastServed(after.server);
               last.request == ExecutePrepared(stmt.handle, stmt.parameters.value) &&
               match last.reply.failure
               case Some(message) => result == Err(ExecutionFailed(message))
               case None =>
                 match last.reply.answer
                 case RowCount(count) => result == Ok(Affected(count))
                 case ResultSet(readable) =>
                   result == if call in {ForUpdate, ForBatchUpdate} then Err(UnexpectedResultSet)
                             else if readable then Ok(Rows) else Err(ExecutionFailed("conversion")))
  {
    hide Effect;
  }

  /** A transaction begins unless the session is closing or closed or in one, in which case nothing is
      sent: autocommit is switched off, and the session is marked just when the server agrees. */
  lemma BeginAnswers(w: World, outcomes: Outcomes)
    ensures var (after, result) := Do(w, DoBegin, outcomes);
            if w.session.state in {Closing, Closed} || w.session.inTransaction then
              after == w && result.Err? && result.error.TransactionError?
            else
              |after.server.log| == |w.server.log| + 1 &&
              var last := LastServed(after.server);
              last.request == SetAutocommit(false) && after.session.timeout == w.session.timeout &&
              match last.reply.failure
              case Some(message) => result == Err(TransactionError(message)) && after.session == w.session
              case None => result == Ok(Unit) && after.session.inTransaction && after.session.state.InTransaction?
  {
    hide Effect;
  }

  /** Ending a transaction that is not open does nothing. Otherwise it runs the word of the operation;
      it reports success just when the server answers that with a row count, and then alone the
      transaction is over and nothing is pending. */
  lemma EndingAnswers(w: World, op: Op, outcomes: Outcomes)
    requires op.DoCommit? || op.DoRollback?
    ensures var (after, result) := Do(w, op, outcomes);
            if !w.session.inTransaction then after == w && result == Ok(Unit)
            else if w.session.state in {Closing, Closed} then after == w && result == Err(InvalidState)
            else
              |after.server.log| > |w.server.log| &&
              var last := LastServed(after.server);
              (last.request == Query(if op.DoCommit? then "COMMIT" else "ROLLBACK") ||
               (last.request.SetQueryTimeout? && last.reply.failure.Some?)) &&
              (result.Ok? <==> last.reply.failure.None? && last.reply.answer.RowCount?) &&
              (result.Ok? ==> after.session.state.Ready? && !after.session.inTransaction && !after.server.pending) &&
              (result.Err? ==> after.session.state == w.session.state && after.session.inTransaction)
  {
    if w.session.inTransaction {
      var stmt := CreateStatement(if op.DoCommit? then "COMMIT" else "ROLLBACK", w.configured);
      EndingStatement(op, w.configured);
      hide Execute, CreateStatement, Target, Stands;
      ExecuteTouchesNoTransaction(w, stmt, outcomes);
      ExecuteSendsNothing(w, stmt, outcomes);
      if CanExecute(w.session.state) {
        ExecuteAnswers(w, stmt, outcomes);
        if Execute(w, stmt, outcomes).1.Ok? { EndedLeavesNothing(w, stmt, outcomes); }
      }
    }
  }

  lemma EndingStatement(op: Op, configured: Option<Duration>)
    requires op.DoCommit? || op.DoRollback?
    ensures var word := if op.DoCommit? then "COMMIT" else "ROLLBACK";
            CreateStatement(word, configured).sql == Some(word) && EndsTransaction(word)
  {
  }

  lemma EndedLeavesNothing(w: World, stmt: Statement, outcomes: Outcomes)
    requires stmt.sql.Some? && EndsTransaction(stmt.sql.value) && Execute(w, stmt, outcomes).1.Ok?
    ensures !Execute(w, stmt, outcomes).0.server.pending
  {
    hide MapExecutionError, Target, Limit;
  }

  /** Connecting pushes the configured timeout, rounded up to seconds, and then opens the schema; it
      starts with autocommit on, nothing pending and no query counted. A refused timeout ends it there;
      a refused schema closes the session. */
  lemma ConnectAnswers(configured: Option<Duration>, schema: Option<string>, outcomes: Outcomes)
    ensures var (after, result) := Connect(configured, schema, outcomes);
            var sent := seq(|after.server.log|, i requires 0 <= i < |after.server.log| => after.server.log[i].request);
            var (pushes, opens) := (if configured.Some? then 1 else 0, if schema.Some? then 1 else 0);
            var timeoutRefused := configured.Some? && outcomes(0).failure.Some?;
            var schemaRefused := schema.Some? && outcomes(pushes).failure.Some?;
            after.server.autocommit && !after.server.pending && after.session.queryCount == 0 && !after.session.inTransaction &&
            (result.Ok? <==> !timeoutRefused && !schemaRefused) &&
            (result.Ok? ==> after.session.state.Ready? && after.session.timeout == configured && |sent| == pushes + opens) &&
            (configured.Some? ==>
               |sent| >= 1 && sent[0].SetQueryTimeout? &&
               (IsDuration(configured.value) ==> IsCeiling(sent[0].secs, configured.value))) &&
            (timeoutRefused ==> |sent| == 1 && result == Err(ConnectionFailed(outcomes(0).failure.value))) &&
            (!timeoutRefused && schema.Some? ==> |sent| > pushes && sent[pushes] == SetCurrentSchema(schema.value)) &&
            (!timeoutRefused && schemaRefused ==>
               |sent| == pushes + 2 && sent[pushes + 1] == Close && after.session.state.Closed? && result.Err?)
  {
    if configured.Some? { CeilingIsExact(configured.value); }
    hide SecsCeil, IsCeiling;
  }

  /** The least number of whole seconds that is no shorter than `d`, within 64 bits. */
  predicate IsCeiling(secs: nat, d: Duration) {
    (secs > 0 ==> (secs - 1) * 1_000_000_000 < d.secs * 1_000_000_000 + d.nanos) &&
    (secs * 1_000_000_000 >= d.secs * 1_000_000_000 + d.nanos || secs == U64_MAX)
  }

  lemma CeilingIsExact(d: Duration)
    ensures IsDuration(d) ==> IsCeiling(SecsCeil(d), d)
  {
  }

  /** The request that an operation of one request makes, and the failure it reports a refusal as. */
  lemma OneRequestAnswers(w: World, op: Op, outcomes: Outcomes)
    requires op.DoSetSchema? || op.DoPrepare? || op.DoClosePrepared? || op.DoRunExecutor? || op.DoShutdown?
    ensures var (after, result) := Do(w, op, outcomes);
            if (op.DoSetSchema? || op.DoPrepare?) && w.session.state in {Closing, Closed} then after == w && result == Err(InvalidState)
            else if op.DoClosePrepared? && op.prepared.closed then after == w && result == Ok(Unit)
            else
              |after.server.log| == |w.server.log| + 1 &&
              var (last, refusal) := (LastServed(after.server), LastServed(after.server).reply.failure);
              (op.DoShutdown? ==> !after.session.inTransaction && after.session.state.Closed?) &&
              (!op.DoShutdown? ==> after.session == w.session) &&
              (refusal.Some? ==>
                 result == Err(if op.DoShutdown? then ConnectionFailed(refusal.value) else ExecutionFailed(refusal.value))) &&
              match op
              case DoSetSchema(name) => last.request == SetCurrentSchema(name) && (refusal.None? ==> result == Ok(Unit))
              case DoPrepare(sql) => last.request == CreatePrepared(sql) && (refusal.None? ==> result == Ok(NewHandle(last.reply.handle)))
              case DoClosePrepared(stmt) => last.request == DropPrepared(stmt.handle) && (refusal.None? ==> result == Ok(Unit))
              case DoRunExecutor(sql) =>
                last.request == Query(sql) &&
                (refusal.None? ==> result == Ok(Affected(if last.reply.answer.RowCount? then last.reply.answer.count else 0)))
              case _ => last.request == Close && (refusal.None? ==> result == Ok(Unit))
  {
    hide Effect;
  }

  /** A reported timeout is never zero and never shorter than the statement asked for. */
  lemma ReportedTimeoutCoversTheRequest(w: World, stmt: Statement, outcomes: Outcomes)
    requires IsStatement(stmt)
    requires var r := Execute(w, stmt, outcomes).1; r.Err? && r.error.Timeout?
    ensures var reported := Execute(w, stmt, outcomes).1.error.timeoutMs;
            reported > 0 && stmt.timeoutMs.Some? && reported >= stmt.timeoutMs.value > 0 &&
            (reported < stmt.timeoutMs.value + 1000 || reported == U64_MAX)
  {
    hide IsTimeoutMessage, Serve;
  }

  /** A zero limit is only ever what was asked for: no timeout, or one of zero milliseconds. */
  lemma ZeroLimitMeansUnlimited(stmt: Statement)
    requires IsStatement(stmt)
    ensures Target(stmt) == 0 <==> stmt.timeoutMs.None? || stmt.timeoutMs == Some(0)
  {
  }

  /** The connection's own timeout keeps its ceiling in its statements just when it has no part of a
      second shorter than a millisecond and its milliseconds do not saturate. */
  lemma InheritedLimitIsExact(d: Duration, sql: string)
    requires IsDuration(d)
    ensures Target(CreateStatement(sql, Some(d))) == SecsCeil(d) <==>
              (d.nanos == 0 || d.nanos >= 1_000_000) && SecsCeil(d) <= U64_MAX / 1000 + 1
  {
    var ms := d.secs * 1000 + d.nanos / 1_000_000;
    assert ms / 1000 == d.secs && ms % 1000 == d.nanos / 1_000_000;
  }

  /** A timeout of the connection becomes unlimited in its statements just when it is shorter than a
      millisecond. */
  lemma InheritedLimitVanishesIff(d: Duration, sql: string)
    requires IsDuration(d)
    ensures Target(CreateStatement(sql, Some(d))) == 0 <==> d.secs == 0 && d.nanos < 1_000_000
  {
  }

  /** Every request among those served since `before` found some limit pushed, and leaves one. */
  predicate StaysPushed(before: Server, after: Server) {
    after.limit.Some? && before.log <= after.log &&
    forall k :: |before.log| <= k < |after.log| ==> after.log[k].limit.Some?
  }

  lemma ServeStaysPushed(before: Server, server: Server, request: Request, outcomes: Outcomes)
    requires StaysPushed(before, server)
    ensures StaysPushed(before, Serve(server, request, outcomes))
  {
  }

  lemma ExecuteStaysPushed(w: World, stmt: Statement, outcomes: Outcomes)
    requires w.server.limit.Some?
    ensures StaysPushed(w.server, Execute(w, stmt, outcomes).0.server)
  {
    assert StaysPushed(w.server, w.server);
    hide Serve, StaysPushed, Target, MapExecutionError, ToResultSet, Limit;
    if CanExecute(w.session.state) && stmt.sql.Some? {
      var target, pushed := Target(stmt), w.server;
      if target != Limit(w.session.timeout) {
        pushed := Serve(w.server, SetQueryTimeout(target), outcomes);
        ServeStaysPushed(w.server, w.server, SetQueryTimeout(target), outcomes);
      }
      ServeStaysPushed(w.server, pushed, Query(stmt.sql.value), outcomes);
    }
  }

  lemma LimitStaysPushed(w: World, op: Op, outcomes: Outcomes)
    requires w.server.limit.Some?
    ensures StaysPushed(w.server, Do(w, op, outcomes).0.server)
  {
    assert StaysPushed(w.server, w.server);
    hide Serve, StaysPushed, Execute, ToResultSet, ToRowCount, CreateStatement;
    match op
    case DoExecute(stmt) => ExecuteStaysPushed(w, stmt, outcomes);
    case DoExecuteUpdate(stmt) => ExecuteStaysPushed(w, stmt, outcomes);
    case DoBegin => ServeStaysPushed(w.server, w.server, SetAutocommit(false), outcomes);
    case DoCommit => ExecuteStaysPushed(w, CreateStatement("COMMIT", w.configured), outcomes);
    case DoRollback => ExecuteStaysPushed(w, CreateStatement("ROLLBACK", w.configured), outcomes);
    case DoSetSchema(name) => ServeStaysPushed(w.server, w.server, SetCurrentSchema(name), outcomes);
    case DoPrepare(sql) => ServeStaysPushed(w.server, w.server, CreatePrepared(sql), outcomes);
    case DoRunPrepared(_, prepared) =>
      if prepared.parameters.Some? {
        ServeStaysPushed(w.server, w.server, ExecutePrepared(prepared.handle, prepared.parameters.value), outcomes);
      }
    case DoClosePrepared(prepared) => ServeStaysPushed(w.server, w.server, DropPrepared(prepared.handle), outcomes);
    case DoRunExecutor(sql) => ServeStaysPushed(w.server, w.server, Query(sql), outcomes);
    case DoShutdown => ServeStaysPushed(w.server, w.server, Close, outcomes);
  }

  lemma {:induction false} RunsStayPushed(w: World, ops: seq<Op>, outcomes: Outcomes)
    requires w.server.limit.Some?
    ensures Run(w, ops, outcomes).server.limit.Some?
  {
    hide Do;
    if ops != [] {
      RunsStayPushed(w, ops[..|ops| - 1], outcomes);
      LimitStaysPushed(Run(w, ops[..|ops| - 1], outcomes), ops[|ops| - 1], outcomes);
    }
  }

  /** So on a connection with a configured timeout, whatever ran before, a query that inherits it is
      served unlimited exactly when the timeout is shorter than a millisecond. */
  lemma ConfiguredTimeoutVanishesIff(
    d: Duration, schema: Option<string>, ops: seq<Op>, sql: string, outcomes: Outcomes, s: Served)
    requires IsDuration(d) && Connect(Some(d), schema, outcomes).1.Ok?
    requires var w := Run(Connect(Some(d), schema, outcomes).0, ops, outcomes);
             var after := Do(w, DoExecute(CreateStatement(sql, Some(d))), outcomes).0;
             PushesHonest(after.server.log) && w.server.log <= after.server.log && s in Added(w, after) && s.request.Query?
    ensures s.limit == Some(0) <==> d.secs == 0 && d.nanos < 1_000_000
  {
    var start := Connect(Some(d), schema, outcomes).0;
    assert start.server.limit.Some? by { hide SecsCeil; }
    hide Do, Connect, PushesHonest, Agree, CreateStatement, Target;
    var op := DoExecute(CreateStatement(sql, Some(d)));
    EveryQueryRunsUnderItsOwnLimit(Some(d), schema, ops, op, outcomes);
    RunsStayPushed(start, ops, outcomes);
    LimitStaysPushed(Run(start, ops, outcomes), op, outcomes);
    InheritedLimitVanishesIff(d, sql);
  }

  /** For one, half a millisecond: 1 second is pushed at connect and the statements run unlimited. */
  lemma TinyTimeoutIsLost(sql: string)
    ensures SecsCeil(Duration(0, 500_000)) == 1 && Target(CreateStatement(sql, Some(Duration(0, 500_000)))) == 0
  {
  }

  // ---------------------------------------------------------------------------------------------
  // What the log says of the server
  // ---------------------------------------------------------------------------------------------

  /** The last query timeout that a request in the log put in force. */
  function LastPushed(log: seq<Served>): Option<nat> {
    if log == [] then None
    else
      var last := log[|log| - 1];
      if last.request.SetQueryTimeout? && TakesEffect(last.reply) then Some(last.request.secs)
      else LastPushed(log[..|log| - 1])
  }

  /** Some request in the log turned autocommit off. */
  predicate TurnedOff(log: seq<Served>) {
    exists s :: s in log && s.request == SetAutocommit(false) && TakesEffect(s.reply)
  }

  predicate NoneTurnedOn(log: seq<Served>) { forall s :: s in log ==> s.request != SetAutocommit(true) }

  /** The server's settings are what the log says, and no request ever asked for autocommit. */
  predicate Recorded(server: Server) {
    server.limit == LastPushed(server.log) && (server.autocommit <==> !TurnedOff(server.log)) && NoneTurnedOn(server.log)
  }

  lemma ServeKeepsRecord(server: Server, request: Request, outcomes: Outcomes)
    requires Recorded(server) && request != SetAutocommit(true)
    ensures Recorded(Serve(server, request, outcomes))
  {
    var next := Serve(server, request, outcomes);
    var served := Served(request, ReplyTo(server, outcomes), server.limit);
    assert next.log[..|next.log| - 1] == server.log && next.log[|next.log| - 1] == served;
    assert forall s :: s in next.log <==> s in server.log || s == served;
    if request == SetAutocommit(false) && TakesEffect(served.reply) {
      assert served in next.log;
    }
  }

  lemma AskKeepsRecord(w: World, request: Request, outcomes: Outcomes)
    requires Recorded(w.server) && request != SetAutocommit(true)
    ensures Recorded(Ask(w, request, outcomes).0.server)
  {
    hide Serve, Recorded;
    ServeKeepsRecord(w.server, request, outcomes);
  }

  lemma ExecuteKeepsRecord(w: World, stmt: Statement, outcomes: Outcomes)
    requires Recorded(w.server)
    ensures Recorded(Execute(w, stmt, outcomes).0.server)
  {
    hide Serve, Recorded, Target, MapExecutionError, ToResultSet, Limit;
    if CanExecute(w.session.state) && stmt.sql.Some? {
      var target := Target(stmt);
      if target != Limit(w.session.timeout) { AskKeepsRecord(Counted(w), SetQueryTimeout(target), outcomes); }
      AskKeepsRecord(Reconciled(Counted(w), target, outcomes).0, Query(stmt.sql.value), outcomes);
    }
  }

  lemma StepKeepsRecord(w: World, op: Op, outcomes: Outcomes)
    requires Recorded(w.server)
    ensures Recorded(Do(w, op, outcomes).0.server)
  {
    hide Serve, Recorded, Execute, ToResultSet, ToRowCount, CreateStatement;
    match op
    case DoExecute(stmt) => ExecuteKeepsRecord(w, stmt, outcomes);
    case DoExecuteUpdate(stmt) => ExecuteKeepsRecord(w, stmt, outcomes);
    case DoBegin => ServeKeepsRecord(w.server, SetAutocommit(false), outcomes);
    case DoCommit => ExecuteKeepsRecord(w, CreateStatement("COMMIT", w.configured), outcomes);
    case DoRollback => ExecuteKeepsRecord(w, CreateStatement("ROLLBACK", w.configured), outcomes);
    case DoSetSchema(name) => ServeKeepsRecord(w.server, SetCurrentSchema(name), outcomes);
    case DoPrepare(sql) => ServeKeepsRecord(w.server, CreatePrepared(sql), outcomes);
    case DoRunPrepared(_, prepared) =>
      if prepared.parameters.Some? {
        ServeKeepsRecord(w.server, ExecutePrepared(prepared.handle, prepared.parameters.value), outcomes);
      }
    case DoClosePrepared(prepared) => ServeKeepsRecord(w.server, DropPrepared(prepared.handle), outcomes);
    case DoRunExecutor(sql) => ServeKeepsRecord(w.server, Query(sql), outcomes);
    case DoShutdown => ServeKeepsRecord(w.server, Close, outcomes);
  }

  lemma ConnectIsRecorded(configured: Option<Duration>, schema: Option<string>, outcomes: Outcomes)
    ensures Recorded(Connect(configured, schema, outcomes).0.server)
  {
    var start := World(SessionData(Ready, false, 0, None), LOGGED_IN, configured);
    assert Recorded(LOGGED_IN);
    hide Serve, Recorded, SecsCeil;
    var pushed := LOGGED_IN;
    if configured.Some? {
      pushed := Serve(LOGGED_IN, SetQueryTimeout(SecsCeil(configured.value)), outcomes);
      ServeKeepsRecord(LOGGED_IN, SetQueryTimeout(SecsCeil(configured.value)), outcomes);
    }
    if schema.Some? {
      ServeKeepsRecord(pushed, SetCurrentSchema(schema.value), outcomes);
      ServeKeepsRecord(Serve(pushed, SetCurrentSchema(schema.value), outcomes), Close, outcomes);
    }
  }

  /** In every run from a connect the limit in force is the last one a request put in force, and
      autocommit is on exactly when no request that turns it off took effect. */
  lemma {:induction false} RunsAreRecorded(
    configured: Option<Duration>, schema: Option<string>, ops: seq<Op>, outcomes: Outcomes)
    ensures Recorded(Run(Connect(configured, schema, outcomes).0, ops, outcomes).server)
  {
    hide Do, Recorded, Connect;
    if ops == [] {
      ConnectIsRecorded(configured, schema, outcomes);
    } else {
      RunsAreRecorded(configured, schema, ops[..|ops| - 1], outcomes);
      StepKeepsRecord(Run(Connect(configured, schema, outcomes).0, ops[..|ops| - 1], outcomes), ops[|ops| - 1], outcomes);
    }
  }

  /** The last query timeout that a request put in force and reported as pushed. */
  function LastAcknowledged(log: seq<Served>): Option<nat> {
    if log == [] then None
    else
      var last := log[|log| - 1];
      if last.request.SetQueryTimeout? && last.reply.failure.None? then Some(last.request.secs)
      else LastAcknowledged(log[..|log| - 1])
  }

  /** The baseline is the limit last acknowledged; before that it is absent, and no limit of 0 is pushed. */
  predicate Acknowledges(timeout: Option<Duration>, log: seq<Served>) {
    match LastAcknowledged(log)
    case None => timeout.None? && LastPushed(log) != Some(0)
    case Some(secs) => Limit(timeout) == secs
  }

  lemma {:induction false} NothingAcknowledged(log: seq<Served>, longer: seq<Served>)
    requires log <= longer && forall s :: s in longer[|log|..] ==> !s.request.SetQueryTimeout?
    ensures LastAcknowledged(longer) == LastAcknowledged(log) && LastPushed(longer) == LastPushed(log)
  {
    if log == longer {
    } else {
      var n := |longer| - 1;
      assert longer[n] == longer[|log|..][n - |log|];
      assert longer[|log|..][..n - |log|] == longer[..n][|log|..];
      forall s | s in longer[..n][|log|..] ensures s in longer[|log|..] {}
      NothingAcknowledged(log, longer[..n]);
    }
  }

  lemma ServedLast(server: Server, request: Request, outcomes: Outcomes)
    ensures var reply := ReplyTo(server, outcomes);
            LastAcknowledged(Serve(server, request, outcomes).log) ==
              (if request.SetQueryTimeout? && reply.failure.None? then Some(request.secs) else LastAcknowledged(server.log)) &&
            LastPushed(Serve(server, request, outcomes).log) ==
              if request.SetQueryTimeout? && TakesEffect(reply) then Some(request.secs) else LastPushed(server.log)
  {
    var next := Serve(server, request, outcomes);
    assert next.log[..|next.log| - 1] == server.log;
  }

  lemma ExecuteAcknowledges(w: World, stmt: Statement, outcomes: Outcomes)
    requires Acknowledges(w.session.timeout, w.server.log)
    ensures var after := Execute(w, stmt, outcomes).0; Acknowledges(after.session.timeout, after.server.log)
  {
    hide Serve, LastAcknowledged, LastPushed, MapExecutionError, ToResultSet, SecsCeil, StatementTimeout;
    if CanExecute(w.session.state) && stmt.sql.Some? {
      var target, pushed := Target(stmt), w.server;
      if target != Limit(w.session.timeout) {
        pushed := Serve(w.server, SetQueryTimeout(target), outcomes);
        ServedLast(w.server, SetQueryTimeout(target), outcomes);
      }
      ServedLast(pushed, Query(stmt.sql.value), outcomes);
    }
  }

  lemma StepAcknowledges(w: World, op: Op, outcomes: Outcomes)
    requires Acknowledges(w.session.timeout, w.server.log)
    ensures var after := Do(w, op, outcomes).0; Acknowledges(after.session.timeout, after.server.log)
  {
    hide Execute, Acknowledges;
    match op
    case DoExecute(stmt) => ExecuteAcknowledges(w, stmt, outcomes);
    case DoExecuteUpdate(stmt) => ExecuteAcknowledges(w, stmt, outcomes);
    case DoCommit => ExecuteAcknowledges(w, CreateStatement("COMMIT", w.configured), outcomes);
    case DoRollback => ExecuteAcknowledges(w, CreateStatement("ROLLBACK", w.configured), outcomes);
    case _ =>
      hide Do;
      OtherStepPushesNothing(w, op, outcomes);
      SameAcknowledged(w, Do(w, op, outcomes).0);
  }

  lemma SameAcknowledged(w: World, after: World)
    requires PushedNothing(w.server, after.server) && after.session.timeout == w.session.timeout
    ensures Acknowledges(w.session.timeout, w.server.log) <==> Acknowledges(after.session.timeout, after.server.log)
  {
    NothingAcknowledged(w.server.log, after.server.log);
  }

  lemma ConnectAcknowledges(configured: Option<Duration>, schema: Option<string>, outcomes: Outcomes)
    requires Connect(configured, schema, outcomes).1.Ok?
    ensures var w := Connect(configured, schema, outcomes).0; Acknowledges(w.session.timeout, w.server.log)
  {
    hide Serve, SecsCeil;
    assert LastAcknowledged(LOGGED_IN.log) == None && LastPushed(LOGGED_IN.log) == None;
    var pushed := LOGGED_IN;
    if configured.Some? {
      pushed := Serve(LOGGED_IN, SetQueryTimeout(SecsCeil(configured.value)), outcomes);
      ServedLast(LOGGED_IN, SetQueryTimeout(SecsCeil(configured.value)), outcomes);
    }
    if schema.Some? { ServedLast(pushed, SetCurrentSchema(schema.value), outcomes); }
  }

  lemma {:induction false} RunsAcknowledge(
    configured: Option<Duration>, schema: Option<string>, ops: seq<Op>, outcomes: Outcomes)
    requires Connect(configured, schema, outcomes).1.Ok?
    ensures var w := Run(Connect(configured, schema, outcomes).0, ops, outcomes); Acknowledges(w.session.timeout, w.server.log)
  {
    hide Do, Connect, Acknowledges;
    if ops == [] {
      ConnectAcknowledges(configured, schema, outcomes);
    } else {
      RunsAcknowledge(configured, schema, ops[..|ops| - 1], outcomes);
      StepAcknowledges(Run(Connect(configured, schema, outcomes).0, ops[..|ops| - 1], outcomes), ops[|ops| - 1], outcomes);
    }
  }

  lemma {:induction false} AcknowledgedIsPushed(log: seq<Served>)
    ensures LastAcknowledged(log).Some? ==> LastPushed(log).Some?
  {
    if log != [] { AcknowledgedIsPushed(log[..|log| - 1]); }
  }

  /** A run from a connect ends in agreement exactly when the limit last put in force is the limit last
      acknowledged, or none of either. */
  lemma RunsAgreeIff(configured: Option<Duration>, schema: Option<string>, ops: seq<Op>, outcomes: Outcomes)
    requires Connect(configured, schema, outcomes).1.Ok?
    ensures var w := Run(Connect(configured, schema, outcomes).0, ops, outcomes);
            var (pushed, acknowledged) := (LastPushed(w.server.log), LastAcknowledged(w.server.log));
            Agree(w) <==> pushed == acknowledged
  {
    RunsAcknowledge(configured, schema, ops, outcomes);
    RunsAreRecorded(configured, schema, ops, outcomes);
    hide Connect, Run, LastPushed, LastAcknowledged, SecsCeil;
    AcknowledgedIsPushed(Run(Connect(configured, schema, outcomes).0, ops, outcomes).server.log);
  }

  // ---------------------------------------------------------------------------------------------
  // Transactions over whole runs
  // ---------------------------------------------------------------------------------------------

  /** The flag and the state agree, and an open transaction means autocommit is off on the server. */
  predicate Consistent(w: World) {
    (w.session.inTransaction <==> w.session.state.InTransaction?) &&
    (w.session.inTransaction ==> !w.server.autocommit)
  }

  lemma ExecuteTouchesNoTransaction(w: World, stmt: Statement, outcomes: Outcomes)
    ensures var after := Execute(w, stmt, outcomes).0;
            after.session.inTransaction == w.session.inTransaction && after.session.state == w.session.state &&
            after.server.autocommit == w.server.autocommit && after.configured == w.configured
  {
    hide MapExecutionError, SecsCeil, FromMillis, ToResultSet, Target;
  }

  lemma StepKeepsConsistency(w: World, op: Op, outcomes: Outcomes)
    requires Consistent(w)
    ensures Consistent(Do(w, op, outcomes).0)
  {
    hide Execute, ToResultSet, ToRowCount, CreateStatement;
    match op
    case DoExecute(stmt) => ExecuteTouchesNoTransaction(w, stmt, outcomes);
    case DoExecuteUpdate(stmt) => ExecuteTouchesNoTransaction(w, stmt, outcomes);
    case DoCommit => ExecuteTouchesNoTransaction(w, CreateStatement("COMMIT", w.configured), outcomes);
    case DoRollback => ExecuteTouchesNoTransaction(w, CreateStatement("ROLLBACK", w.configured), outcomes);
    case _ =>
  }

  lemma {:induction false} RunsStayConsistent(w: World, ops: seq<Op>, outcomes: Outcomes)
    requires Consistent(w)
    ensures Consistent(Run(w, ops, outcomes))
  {
    hide Do, Consistent;
    if ops != [] {
      RunsStayConsistent(w, ops[..|ops| - 1], outcomes);
      StepKeepsConsistency(Run(w, ops[..|ops| - 1], outcomes), ops[|ops| - 1], outcomes);
    }
  }

  /** A failed commit, rollback, begin or statement changes neither flag nor state; and only a begin
      that reaches the server can change its autocommit, to off. */
  lemma FailureChangesNoTransaction(w: World, op: Op, outcomes: Outcomes)
    requires Do(w, op, outcomes).1.Err? && !op.DoShutdown?
    ensures var after := Do(w, op, outcomes).0;
            after.session.inTransaction == w.session.inTransaction && after.session.state == w.session.state &&
            (after.server.autocommit == w.server.autocommit || (op.DoBegin? && !after.server.autocommit))
  {
    hide Execute, ToResultSet, ToRowCount, CreateStatement;
    match op
    case DoExecute(stmt) => ExecuteTouchesNoTransaction(w, stmt, outcomes);
    case DoExecuteUpdate(stmt) => ExecuteTouchesNoTransaction(w, stmt, outcomes);
    case DoCommit => ExecuteTouchesNoTransaction(w, CreateStatement("COMMIT", w.configured), outcomes);
    case DoRollback => ExecuteTouchesNoTransaction(w, CreateStatement("ROLLBACK", w.configured), outcomes);
    case _ =>
  }

  /** The operations that look at no session state. */
  predicate IgnoresState(op: Op) { op.DoClosePrepared? || op.DoRunExecutor? || op.DoShutdown? }

  lemma ClosedStep(w: World, op: Op, outcomes: Outcomes)
    requires Consistent(w) && w.session.state.Closed?
    ensures Do(w, op, outcomes).0.session.state.Closed?
    ensures !IgnoresState(op) ==> Do(w, op, outcomes).0 == w
  {
  }

  /** A closed session stays closed, and sends nothing but what ignores the session's state. */
  lemma {:induction false} ClosedIsAbsorbing(w: World, ops: seq<Op>, outcomes: Outcomes)
    requires Consistent(w) && w.session.state.Closed?
    ensures Run(w, ops, outcomes).session.state.Closed?
    ensures (forall op :: op in ops ==> !IgnoresState(op)) ==> Run(w, ops, outcomes) == w
  {
    hide Do, Consistent, IgnoresState;
    if ops != [] {
      var before, op := Run(w, ops[..|ops| - 1], outcomes), ops[|ops| - 1];
      ClosedIsAbsorbing(w, ops[..|ops| - 1], outcomes);
      RunsStayConsistent(w, ops[..|ops| - 1], outcomes);
      ClosedStep(before, op, outcomes);
    }
  }

  /** After a shutdown, whatever its answer, nothing that checks the session's state sends a request. */
  lemma NothingIsSentAfterShutdown(w: World, ops: seq<Op>, outcomes: Outcomes)
    requires forall op :: op in ops ==> !IgnoresState(op)
    ensures var closed := Do(w, DoShutdown, outcomes).0;
            closed.session.state.Closed? && Run(closed, ops, outcomes).server.log == closed.server.log
  {
    ClosedIsAbsorbing(Do(w, DoShutdown, outcomes).0, ops, outcomes);
  }

  /** What every operation keeps of the connection, whatever the server answers: it sends on to the
      same log, the transaction stays consistent, closed stays closed, and the limit agrees exactly
      when no refused push took effect. */
  predicate Kept(before: World, after: World) {
    before.server.log <= after.server.log &&
    (Consistent(before) ==> Consistent(after) && (before.session.state.Closed? ==> after.session.state.Closed?)) &&
    (Agree(before) ==> (Agree(after) <==> PushesHonest(Added(before, after))))
  }

  lemma StepIsKept(w: World, op: Op, outcomes: Outcomes)
    ensures Kept(w, Do(w, op, outcomes).0)
  {
    LogGrows(w, op, outcomes);
    hide Do, Consistent, Agree, PushesHonest;
    if Consistent(w) {
      StepKeepsConsistency(w, op, outcomes);
      if w.session.state.Closed? { ClosedStep(w, op, outcomes); }
    }
    if Agree(w) { StepAgreesIff(w, op, outcomes); }
  }

  /** A commit that reports success leaves nothing pending just when a transaction was open or
      nothing was pending before. */
  lemma CommitClearsPendingWork(w: World, outcomes: Outcomes)
    requires Do(w, DoCommit, outcomes).1.Ok?
    ensures !Do(w, DoCommit, outcomes).0.server.pending <==> w.session.inTransaction || !w.server.pending
  {
    hide MapExecutionError, SecsCeil, FromMillis, Target;
  }

  /** With every request answered well, a second commit after more work reports success and leaves
      that work pending: autocommit is still off and no transaction is open. */
  lemma SecondCommitDoesNothing(sql: string)
    requires !EndsTransaction(sql)
    ensures var w := World(SessionData(Ready, false, 0, None), LOGGED_IN, None);
            var outcomes: Outcomes := n => Reply(None, true, RowCount(1), 0);
            var work := DoExecute(Statement(Some(sql), None));
            var before := Run(w, [DoBegin, work, DoCommit, work], outcomes);
            Do(before, DoCommit, outcomes) == (before, Ok(Unit)) && before.server.pending &&
            !before.server.autocommit && !before.session.inTransaction
  {
    var w := World(SessionData(Ready, false, 0, None), LOGGED_IN, None);
    var outcomes: Outcomes := n => Reply(None, true, RowCount(1), 0);
    var work := DoExecute(Statement(Some(sql), None));
    var ops := [DoBegin, work, DoCommit, work];
    assert ops[..3] == [DoBegin, work, DoCommit] && ops[..3][..2] == [DoBegin, work] && ops[..3][..2][..1] == [DoBegin]
           && ops[..3][..2][..1][..0] == [];
    var w1 := Do(w, DoBegin, outcomes).0;
    assert Run(w, [DoBegin], outcomes) == w1;
    var w2 := Do(w1, work, outcomes).0;
    assert Run(w, [DoBegin, work], outcomes) == w2;
    var w3 := Do(w2, DoCommit, outcomes).0;
    assert Run(w, [DoBegin, work, DoCommit], outcomes) == w3;
    assert Run(w, ops, outcomes) == Do(w3, work, outcomes).0;
    assert w1.session.inTransaction && !w1.server.autocommit;
    assert w2.session.inTransaction && !w2.server.autocommit;
    assert !w3.session.inTransaction && !w3.server.autocommit && w3.session.state.Ready?;
  }

  /** Uncommitted work on the server belongs to a transaction the client knows is open. */
  predicate WorkIsStaged(w: World) { w.server.pending ==> w.session.inTransaction }

  /** Executing keeps it so, unless it runs outside a transaction on a server with autocommit off. */
  lemma ExecutionStaysStaged(w: World, stmt: Statement, outcomes: Outcomes)
    requires WorkIsStaged(w) && Do(w, DoExecute(stmt), outcomes).1.Ok?
    ensures WorkIsStaged(Do(w, DoExecute(stmt), outcomes).0) <==>
              w.server.autocommit || w.session.inTransaction || EndsTransaction(stmt.sql.value)
  {
    hide MapExecutionError, SecsCeil, FromMillis, Target;
  }

  /** Nothing turns the server's autocommit on again. */
  lemma AutocommitNeverReturns(w: World, op: Op, outcomes: Outcomes)
    requires !w.server.autocommit
    ensures !Do(w, op, outcomes).0.server.autocommit
  {
    hide Execute, ToResultSet, ToRowCount, CreateStatement;
    match op
    case DoExecute(stmt) => ExecuteTouchesNoTransaction(w, stmt, outcomes);
    case DoExecuteUpdate(stmt) => ExecuteTouchesNoTransaction(w, stmt, outcomes);
    case DoCommit => ExecuteTouchesNoTransaction(w, CreateStatement("COMMIT", w.configured), outcomes);
    case DoRollback => ExecuteTouchesNoTransaction(w, CreateStatement("ROLLBACK", w.configured), outcomes);
    case _ =>
  }

  // ---------------------------------------------------------------------------------------------
  // The autocommit switch of the C interface (src/adbc_ffi.rs:1324-1367, 1722-1756)
  // ---------------------------------------------------------------------------------------------

  datatype FfiWorld = FfiWorld(autoCommit: bool, connection: World)

  /** What the interface asks of the connection. The catalogue queries are executions of their text,
      and a bulk ingest is executions for row counts and then an import. */
  datatype FfiOp =
    | SetAutoCommit(enabled: bool)
    | FfiCommit
    | FfiRollback
    | FfiExecute(stmt: Statement)
    | FfiExecuteUpdate(stmt: Statement)
    | FfiPrepare(sql: string)
    | FfiExecuteBatch(prepared: Prepared)
    | FfiExecuteBatchUpdate(prepared: Prepared)
    | FfiImport(sql: string)
    | FfiSetSchema(name: string)
    | FfiClose

  /** The operations that go to the connection as they are, whatever the switch says. */
  function PassedOn(op: FfiOp): Option<Op> {
    match op
    case FfiExecute(stmt) => Some(DoExecute(stmt))
    case FfiExecuteUpdate(stmt) => Some(DoExecuteUpdate(stmt))
    case FfiPrepare(sql) => Some(DoPrepare(sql))
    case FfiExecuteBatch(prepared) => Some(DoRunPrepared(ForBatch, prepared))
    case FfiExecuteBatchUpdate(prepared) => Some(DoRunPrepared(ForBatchUpdate, prepared))
    case FfiImport(sql) => Some(DoRunExecutor(sql))
    case FfiSetSchema(name) => Some(DoSetSchema(name))
    case FfiClose => Some(DoShutdown)
    case _ => None
  }

  type FfiStep = (FfiWorld, Result<Value, Failure>)

  /** The switch is stored before anything is asked of the server. */
  function ApplyAutoCommit(f: FfiWorld, enabled: bool, outcomes: Outcomes): FfiStep {
    if f.autoCommit == enabled then (f, Ok(Unit))
    else
      var (w, result) := if enabled then Finish(f.connection, "COMMIT", outcomes) else Begin(f.connection, outcomes);
      (FfiWorld(enabled, w), result)
  }

  function FfiFinish(f: FfiWorld, sql: string, outcomes: Outcomes): FfiStep {
    if f.autoCommit then (f, Err(InvalidState))
    else
      var (w, result) := Finish(f.connection, sql, outcomes);
      (f.(connection := w), result)
  }

  function FfiDo(f: FfiWorld, op: FfiOp, outcomes: Outcomes): FfiStep {
    match op
    case SetAutoCommit(enabled) => ApplyAutoCommit(f, enabled, outcomes)
    case FfiCommit => FfiFinish(f, "COMMIT", outcomes)
    case FfiRollback => FfiFinish(f, "ROLLBACK", outcomes)
    case _ =>
      var (w, result) := Do(f.connection, PassedOn(op).value, outcomes);
      (f.(connection := w), result)
  }

  function FfiRun(f: FfiWorld, ops: seq<FfiOp>, outcomes: Outcomes): FfiWorld {
    if ops == [] then f else FfiDo(FfiRun(f, ops[..|ops| - 1], outcomes), ops[|ops| - 1], outcomes).0
  }

  /** The connection operation behind an operation of the interface, if it reaches the connection. */
  function Underlying(f: FfiWorld, op: FfiOp): Option<Op> {
    match op
    case SetAutoCommit(enabled) =>
      if f.autoCommit == enabled then None else Some(if enabled then DoCommit else DoBegin)
    case FfiCommit => if f.autoCommit then None else Some(DoCommit)
    case FfiRollback => if f.autoCommit then None else Some(DoRollback)
    case _ => PassedOn(op)
  }

  lemma FfiStepIsUnderlying(f: FfiWorld, op: FfiOp, outcomes: Outcomes)
    ensures FfiDo(f, op, outcomes).0.connection ==
              var under := Underlying(f, op);
              if under.None? then f.connection else Do(f.connection, under.value, outcomes).0
  {
    hide Execute, Begin, Finish;
  }

  lemma FfiStepIsKept(f: FfiWorld, op: FfiOp, outcomes: Outcomes)
    ensures Kept(f.connection, FfiDo(f, op, outcomes).0.connection)
  {
    FfiStepIsUnderlying(f, op, outcomes);
    hide Do, FfiDo, Consistent;
    if Underlying(f, op).Some? { StepIsKept(f.connection, Underlying(f, op).value, outcomes); }
  }

  /** Runs of the interface are runs of the connection, so all of the above holds of them too. */
  lemma {:induction false} FfiRunsAreConnectionRuns(f: FfiWorld, ops: seq<FfiOp>, outcomes: Outcomes) returns (under: seq<Op>)
    ensures FfiRun(f, ops, outcomes).connection == Run(f.connection, under, outcomes)
  {
    hide Do, FfiDo, Underlying;
    if ops == [] {
      under := [];
    } else {
      var before, op := FfiRun(f, ops[..|ops| - 1], outcomes), ops[|ops| - 1];
      under := FfiRunsAreConnectionRuns(f, ops[..|ops| - 1], outcomes);
      FfiStepIsUnderlying(before, op, outcomes);
      if Underlying(before, op).Some? {
        var longer := under + [Underlying(before, op).value];
        assert longer[..|longer| - 1] == under;
        under := longer;
      }
    }
  }

  lemma {:induction false} AutocommitStaysOff(f: FfiWorld, ops: seq<FfiOp>, outcomes: Outcomes)
    requires !f.connection.server.autocommit
    ensures !FfiRun(f, ops, outcomes).connection.server.autocommit
  {
    hide Do, FfiDo, Underlying;
    if ops != [] {
      var before, op := FfiRun(f, ops[..|ops| - 1], outcomes), ops[|ops| - 1];
      AutocommitStaysOff(f, ops[..|ops| - 1], outcomes);
      FfiStepIsUnderlying(before, op, outcomes);
      if Underlying(before, op).Some? {
        AutocommitNeverReturns(before.connection, Underlying(before, op).value, outcomes);
      }
    }
  }

  /** Once autocommit was switched off on the server, switching it back on reaches only the client:
      in every later state, work that succeeds stays uncommitted, and committing is refused while
      the switch says on. */
  lemma SwitchingBackOnLeavesWorkPending(f: FfiWorld, ops: seq<FfiOp>, stmt: Statement, outcomes: Outcomes)
    requires !f.connection.server.autocommit
    requires var g := FfiRun(f, ops, outcomes);
             g.autoCommit && FfiDo(g, FfiExecute(stmt), outcomes).1.Ok? && !EndsTransaction(stmt.sql.value)
    ensures var after := FfiDo(FfiRun(f, ops, outcomes), FfiExecute(stmt), outcomes).0;
            after.connection.server.pending && after.autoCommit &&
            FfiDo(after, FfiCommit, outcomes) == (after, Err(InvalidState))
  {
    AutocommitStaysOff(f, ops, outcomes);
    var g := FfiRun(f, ops, outcomes);
    ExecutedWork(g.connection, stmt, outcomes);
    hide Execute, Finish, Begin;
  }

  /** Successful work is pending exactly when autocommit is off on the server. */
  lemma ExecutedWork(w: World, stmt: Statement, outcomes: Outcomes)
    requires Execute(w, stmt, outcomes).1.Ok? && !EndsTransaction(stmt.sql.value)
    ensures Execute(w, stmt, outcomes).0.server.pending <==> !w.server.autocommit
  {
    hide MapExecutionError, SecsCeil, FromMillis, Target, EndsTransaction;
  }

  /** Only a begin can change the server's autocommit. */
  lemma OthersKeepAutocommit(w: World, op: Op, outcomes: Outcomes)
    requires !op.DoBegin?
    ensures Do(w, op, outcomes).0.server.autocommit == w.server.autocommit
  {
    hide Execute, ToResultSet, ToRowCount, CreateStatement;
    match op
    case DoExecute(stmt) => ExecuteTouchesNoTransaction(w, stmt, outcomes);
    case DoExecuteUpdate(stmt) => ExecuteTouchesNoTransaction(w, stmt, outcomes);
    case DoCommit => ExecuteTouchesNoTransaction(w, CreateStatement("COMMIT", w.configured), outcomes);
    case DoRollback => ExecuteTouchesNoTransaction(w, CreateStatement("ROLLBACK", w.configured), outcomes);
    case _ =>
  }

  /** A C interface over a connection that has just been made. */
  function FreshFfi(configured: Option<Duration>, schema: Option<string>, outcomes: Outcomes): FfiWorld {
    FfiWorld(true, Connect(configured, schema, outcomes).0)
  }

  /** What a change of the switch reaches, when it reports success: switching off turns the server's
      autocommit off, and switching on meets its documentation exactly when the server's autocommit
      was on all the while. A refused change is stored all the same. */
  lemma ToggleReachesServerIff(f: FfiWorld, enabled: bool, outcomes: Outcomes)
    requires Consistent(f.connection) && enabled != f.autoCommit
    ensures var (after, result) := FfiDo(f, SetAutoCommit(enabled), outcomes);
            after.autoCommit == enabled && Consistent(after.connection) &&
            (result.Err? ==> after.connection.session.inTransaction == f.connection.session.inTransaction) &&
            (result.Ok? ==>
               (after.connection.session.inTransaction <==> !enabled) &&
               (after.connection.server.autocommit == enabled <==> !enabled || f.connection.server.autocommit))
  {
    hide Execute, CreateStatement;
    if enabled {
      ExecuteTouchesNoTransaction(f.connection, CreateStatement("COMMIT", f.connection.configured), outcomes);
    }
  }

  /** Over every run of the interface from a connect, autocommit is on at the server exactly when no
      request that turns it off took effect. */
  lemma FfiRunsAreRecorded(configured: Option<Duration>, schema: Option<string>, ops: seq<FfiOp>, outcomes: Outcomes)
    ensures Recorded(FfiRun(FreshFfi(configured, schema, outcomes), ops, outcomes).connection.server)
  {
    hide Connect, Recorded, Do, FfiDo;
    var under := FfiRunsAreConnectionRuns(FreshFfi(configured, schema, outcomes), ops, outcomes);
    RunsAreRecorded(configured, schema, under, outcomes);
  }

  /** No refused autocommit request took effect. */
  predicate SwitchesHonest(log: seq<Served>) {
    forall s :: s in log && s.request.SetAutocommit? && s.reply.failure.Some? ==> !s.reply.applied
  }

  /** Some call of the run switched autocommit off and reported success. */
  predicate SwitchedOff(f: FfiWorld, ops: seq<FfiOp>, outcomes: Outcomes) {
    if ops == [] then false
    else
      var before, op := FfiRun(f, ops[..|ops| - 1], outcomes), ops[|ops| - 1];
      SwitchedOff(f, ops[..|ops| - 1], outcomes) ||
      (op == SetAutoCommit(false) && before.autoCommit && FfiDo(before, op, outcomes).1.Ok?)
  }

  /** An operation that is not a successful switch off leaves the server's autocommit as it was, and
      a successful one turns it off. */
  lemma OnlySwitchingOffTurnsOff(f: FfiWorld, op: FfiOp, outcomes: Outcomes)
    requires Consistent(f.connection)
    ensures var (after, result) := FfiDo(f, op, outcomes);
            Consistent(after.connection) && f.connection.server.log <= after.connection.server.log &&
            (SwitchesHonest(after.connection.server.log) ==>
               (after.connection.server.autocommit <==>
                  f.connection.server.autocommit && !(op == SetAutoCommit(false) && f.autoCommit && result.Ok?)))
  {
    FfiStepIsUnderlying(f, op, outcomes);
    if Underlying(f, op).Some? {
      StepKeepsConsistency(f.connection, Underlying(f, op).value, outcomes);
      LogGrows(f.connection, Underlying(f, op).value, outcomes);
    }
    if op == SetAutoCommit(false) {
      hide Execute, Finish, Do;
      var after := FfiDo(f, op, outcomes).0.connection.server;
      if |after.log| > |f.connection.server.log| {
        assert after.log[|f.connection.server.log|] in after.log;
      }
    } else {
      if Underlying(f, op).Some? { OthersKeepAutocommit(f.connection, Underlying(f, op).value, outcomes); }
      hide Do, FfiDo;
    }
  }

  lemma SwitchesHonestPrefix(log: seq<Served>, longer: seq<Served>)
    requires log <= longer && SwitchesHonest(longer)
    ensures SwitchesHonest(log)
  {
    assert forall s :: s in log ==> s in longer;
  }

  /** In terms of what the caller did: from a connect, as long as refusals mean what they say, the
      server's autocommit is on exactly when the caller never switched it off with success. */
  lemma {:induction false} AutocommitIsWhatTheCallerDid(
    configured: Option<Duration>, schema: Option<string>, ops: seq<FfiOp>, outcomes: Outcomes)
    requires Connect(configured, schema, outcomes).1.Ok?
    requires SwitchesHonest(FfiRun(FreshFfi(configured, schema, outcomes), ops, outcomes).connection.server.log)
    ensures var f := FreshFfi(configured, schema, outcomes);
            var g := FfiRun(f, ops, outcomes).connection;
            Consistent(g) && (g.server.autocommit <==> !SwitchedOff(f, ops, outcomes))
  {
    var f := FreshFfi(configured, schema, outcomes);
    if ops == [] {
      hide SecsCeil;
    } else {
      hide Connect, FfiDo, SwitchesHonest, Consistent;
      var before, op := FfiRun(f, ops[..|ops| - 1], outcomes), ops[|ops| - 1];
      FfiGrows(before, op, outcomes);
      SwitchesHonestPrefix(before.connection.server.log, FfiDo(before, op, outcomes).0.connection.server.log);
      AutocommitIsWhatTheCallerDid(configured, schema, ops[..|ops| - 1], outcomes);
      OnlySwitchingOffTurnsOff(before, op, outcomes);
    }
  }

  lemma FfiGrows(f: FfiWorld, op: FfiOp, outcomes: Outcomes)
    ensures f.connection.server.log <= FfiDo(f, op, outcomes).0.connection.server.log
  {
    hide Do, FfiDo;
    FfiStepIsUnderlying(f, op, outcomes);
    if Underlying(f, op).Some? { LogGrows(f.connection, Underlying(f, op).value, outcomes); }
  }

  /** When the switch says on, successful work is committed at once exactly when the caller never
      switched it off with success before; else it stays uncommitted, and a commit is refused. */
  lemma SwitchIsHonouredIff(
    configured: Option<Duration>, schema: Option<string>, ops: seq<FfiOp>, stmt: Statement, outcomes: Outcomes)
    requires Connect(configured, schema, outcomes).1.Ok?
    requires var g := FfiRun(FreshFfi(configured, schema, outcomes), ops, outcomes);
             SwitchesHonest(g.connection.server.log) && g.autoCommit &&
             FfiDo(g, FfiExecute(stmt), outcomes).1.Ok? && !EndsTransaction(stmt.sql.value)
    ensures var f := FreshFfi(configured, schema, outcomes);
            var after := FfiDo(FfiRun(f, ops, outcomes), FfiExecute(stmt), outcomes).0;
            (after.connection.server.pending <==> SwitchedOff(f, ops, outcomes)) &&
            FfiDo(after, FfiCommit, outcomes) == (after, Err(InvalidState))
  {
    AutocommitIsWhatTheCallerDid(configured, schema, ops, outcomes);
    hide Connect, SwitchesHonest, Begin, Finish;
    ExecutedWork(FfiRun(FreshFfi(configured, schema, outcomes), ops, outcomes).connection, stmt, outcomes);
    hide Execute;
  }

  /** With every request answered well: off, on again, and work that stays uncommitted. */
  lemma TogglingLeavesWorkPending(sql: string)
    requires !EndsTransaction(sql)
    ensures var outcomes: Outcomes := n => Reply(None, true, RowCount(1), 0);
            var f := FreshFfi(None, None, outcomes);
            var work := FfiExecute(Statement(Some(sql), None));
            var after := FfiRun(f, [SetAutoCommit(false), SetAutoCommit(true), work], outcomes);
            after.autoCommit && after.connection.server.pending &&
            FfiDo(after, FfiCommit, outcomes) == (after, Err(InvalidState))
  {
    var outcomes: Outcomes := n => Reply(None, true, RowCount(1), 0);
    var f := FreshFfi(None, None, outcomes);
    var work := FfiExecute(Statement(Some(sql), None));
    var ops := [SetAutoCommit(false), SetAutoCommit(true), work];
    assert ops[..2] == [SetAutoCommit(false), SetAutoCommit(true)] && ops[..2][..1] == [SetAutoCommit(false)] &&
           ops[..2][..1][..0] == [];
    var off := FfiDo(f, SetAutoCommit(false), outcomes).0;
    assert FfiRun(f, [SetAutoCommit(false)], outcomes) == off;
    var on := FfiDo(off, SetAutoCommit(true), outcomes).0;
    assert FfiRun(f, [SetAutoCommit(false), SetAutoCommit(true)], outcomes) == on;
    assert FfiRun(f, ops, outcomes) == FfiDo(on, work, outcomes).0;
    assert off.connection.session.inTransaction && !off.connection.server.autocommit && !off.autoCommit;
    assert on.autoCommit && !on.connection.server.autocommit && on.connection.session.state.Ready?;
  }
}
