/** The statement object of the C interface (src/adbc_ffi.rs:1934-2109, 2313-2371, 2417-2458). Each
    method updates the fields as the source does and is proved to make the step `StatementMachine`
    gives its operation. */
module FfiStatement {
  import opened Text
  import opened SM = StatementMachine

  /** The parent connection, as far as a statement uses it. */
  class Backend {
    var server: Server
    const outcomes: Outcomes

    constructor (outcomes: Outcomes)
      ensures server == Server([], [], 0) && this.outcomes == outcomes
    {
      server := Server([], [], 0);
      this.outcomes := outcomes;
    }

    method Ask(request: Request) returns (reply: Reply)
      modifies this
      ensures server == Call(old(server), request, outcomes) && reply == outcomes(old(server).calls)
    {
      reply := outcomes(server.calls);
      server := Call(server, request, outcomes);
    }
  }

  class FfiStatement {
    const backend: Backend
    const connected: bool
    const convert: Conversion
    const mapping: TypeMapping
    var sql: Option<string>
    var prepared: Option<Handle>
    var bound: Option<Batch>
    var options: map<string, OptionValue>

    constructor (backend: Backend, connected: bool, convert: Conversion, mapping: TypeMapping)
      ensures this.backend == backend && this.convert == convert && this.mapping == mapping
      ensures View() == World(Statement(None, None, None, map[], connected), backend.server)
      ensures HandleFits(View())
    {
      this.backend, this.connected, this.convert, this.mapping := backend, connected, convert, mapping;
      sql, prepared, bound, options := None, None, None, map[];
    }

    function View(): World
      reads this, backend
    {
      World(Statement(sql, prepared, bound, options, connected), backend.server)
    }

    function Env(): Driver
      reads this, backend
    {
      Driver(convert, mapping, backend.outcomes)
    }

    method SetOption(key: string, value: OptionValue)
      modifies this
      ensures View() == SM.SetOption(old(View()), key, value).0
      ensures old(HandleFits(View())) ==> HandleFits(View())
    {
      StepFits(View(), DoSetOption(key, value), Env());
      hide HandleFits;
      options := options[key := value];
    }

    /** Another text drops the prepared handle. */
    method SetSqlQuery(query: string)
      modifies this
      ensures View() == SM.SetSqlQuery(old(View()), query).0
      ensures old(HandleFits(View())) ==> HandleFits(View())
    {
      StepFits(View(), DoSetSqlQuery(query), Env());
      hide HandleFits;
      if sql != Some(query) {
        prepared := None;
      }
      sql := Some(query);
    }

    method Bind(batch: Batch)
      modifies this
      ensures View() == SM.Bind(old(View()), batch).0
      ensures old(HandleFits(View())) ==> HandleFits(View())
    {
      StepFits(View(), DoBind(batch), Env());
      hide HandleFits;
      bound := Some(batch);
    }

    method BindStream(stream: seq<Result<Batch, string>>) returns (result: Result<Value, Failure>)
      modifies this
      ensures (View(), result) == SM.BindStream(old(View()), stream)
      ensures old(HandleFits(View())) ==> HandleFits(View())
    {
      StepFits(View(), DoBindStream(stream), Env());
      hide HandleFits;
      var batches: seq<Batch> := [];
      assert stream[..|stream|] == stream;
      for k := 0 to |stream|
        invariant ReadAll(stream[..k]) == Ok(batches)
        invariant unchanged(this)
      {
        assert stream[..k + 1][..k] == stream[..k];
        if stream[k].Err? {
          FirstErrorStops(stream, k);
          return Err(Refused(stream[k].error));
        }
        batches := batches + [stream[k].value];
      }
      if batches == [] {
        bound := None;
      } else if |batches| == 1 {
        bound := Some(batches[0]);
      } else {
        var combined := Concatenated(batches);
        if combined.None? {
          return Err(Refused("schema mismatch"));
        }
        bound := combined;
      }
      result := Ok(Unit);
    }

    method Prepare() returns (result: Result<Value, Failure>)
      modifies this, backend
      ensures (View(), result) == SM.Prepare(old(View()), backend.outcomes)
      ensures old(HandleFits(View())) ==> HandleFits(View())
    {
      StepFits(View(), DoPrepare, Env());
      hide HandleFits;
      if sql.None? {
        return Err(InvalidState("SQL query not set"));
      }
      if !connected {
        return Err(InvalidState("No connection available"));
      }
      var next := |backend.server.prepared|;
      var reply := backend.Ask(PrepareSql(sql.value));
      if reply.failure.Some? || !reply.sent {
        return Err(Refused(if reply.failure.Some? then reply.failure.value else "not sent"));
      }
      prepared := Some(Handle(next, reply.returnsRows));
      result := Ok(Unit);
    }

    method PreparedWithConnection() returns (result: Result<Value, Failure>)
      modifies this, backend
      ensures (View(), result) == EnsurePrepared(old(View()), backend.outcomes)
      ensures result.Ok? ==> prepared.Some?
      ensures old(HandleFits(View())) ==> HandleFits(View())
    {
      StepFits(View(), DoExecuteSchema, Env());
      hide HandleFits;
      if prepared.None? {
        result := Prepare();
      } else if connected {
        result := Ok(Unit);
      } else {
        result := Err(InvalidState("No connection available"));
      }
    }

    method ExecuteBoundBatch(batch: Batch) returns (result: Result<Value, Failure>)
      modifies this, backend
      ensures (View(), result) == ExecuteBound(old(View()), batch, false, convert, backend.outcomes)
      ensures old(HandleFits(View())) ==> HandleFits(View())
    {
      BoundFits(View(), batch, false, Env());
      hide HandleFits;
      hide EnsurePrepared, BoundRows, Executions, SendAll, Continues;
      var ready := PreparedWithConnection();
      if ready.Err? {
        return ready;
      }
      var rows := BoundRows(batch, convert);
      if rows.Err? {
        return Err(BadCell(rows.error));
      }
      if rows.value == [] {
        return Ok(Batches([]));
      }
      var executions := Executions(rows.value, prepared.value.returnsRows);
      ghost var whole := SendAll(backend.server, prepared.value.id, executions, false, backend.outcomes);
      NothingSentYet(whole);
      ghost var statement := View().statement;
      var batches: seq<string> := [];
      ghost var affected := 0;
      assert executions[0..] == executions;
      for k := 0 to |executions|
        invariant View().statement == statement && prepared.Some?
        invariant Continues(whole, SendAll(backend.server, prepared.value.id, executions[k..], false, backend.outcomes), affected, batches)
      {
        assert executions[k..][1..] == executions[k + 1..];
        OneMoreSent(whole, backend.server, prepared.value.id, executions[k..], false, backend.outcomes, affected, batches);
        var reply := backend.Ask(ExecuteRows(prepared.value.id, executions[k], false));
        if reply.failure.Some? || !reply.sent {
          return Err(Refused(if reply.failure.Some? then reply.failure.value else "not sent"));
        }
        affected := affected + reply.affected;
        batches := batches + reply.batches;
      }
      AllSent(whole, backend.server, prepared.value.id, executions[|executions|..], false, backend.outcomes, affected, batches);
      result := Ok(Batches(batches));
    }

    method ExecuteBoundBatchUpdate(batch: Batch) returns (result: Result<Value, Failure>)
      modifies this, backend
      ensures (View(), result) == ExecuteBound(old(View()), batch, true, convert, backend.outcomes)
      ensures old(HandleFits(View())) ==> HandleFits(View())
    {
      BoundFits(View(), batch, true, Env());
      hide HandleFits;
      hide EnsurePrepared, BoundRows, Executions, SendAll, Continues;
      var ready := PreparedWithConnection();
      if ready.Err? {
        return ready;
      }
      var rows := BoundRows(batch, convert);
      if rows.Err? {
        return Err(BadCell(rows.error));
      }
      if rows.value == [] {
        return Ok(Affected(0));
      }
      var executions := Executions(rows.value, prepared.value.returnsRows);
      ghost var whole := SendAll(backend.server, prepared.value.id, executions, true, backend.outcomes);
      NothingSentYet(whole);
      ghost var statement := View().statement;
      var affected := 0;
      ghost var batches: seq<string> := [];
      assert executions[0..] == executions;
      for k := 0 to |executions|
        invariant View().statement == statement && prepared.Some?
        invariant Continues(whole, SendAll(backend.server, prepared.value.id, executions[k..], true, backend.outcomes), affected, batches)
      {
        assert executions[k..][1..] == executions[k + 1..];
        OneMoreSent(whole, backend.server, prepared.value.id, executions[k..], true, backend.outcomes, affected, batches);
        var reply := backend.Ask(ExecuteRows(prepared.value.id, executions[k], true));
        if reply.failure.Some? || !reply.sent {
          return Err(Refused(if reply.failure.Some? then reply.failure.value else "not sent"));
        }
        affected := affected + reply.affected;
        batches := batches + reply.batches;
      }
      AllSent(whole, backend.server, prepared.value.id, executions[|executions|..], true, backend.outcomes, affected, batches);
      result := Ok(Affected(affected));
    }

    method QuerySql(text: string, update: bool) returns (result: Result<Value, Failure>)
      modifies backend
      ensures (View(), result) == RunText(old(View()), text, update, backend.outcomes)
      ensures old(HandleFits(View())) ==> HandleFits(View())
    {
      RunTextFits(View(), text, update, backend.outcomes);
      if !connected {
        return Err(InvalidState("No connection available"));
      }
      var reply := backend.Ask(RunSql(text, update));
      if reply.failure.Some? {
        return Err(Refused(reply.failure.value));
      }
      result := Ok(if update then Affected(reply.affected) else Batches(reply.batches));
    }

    method ExecuteBulkIngest() returns (result: Result<Value, Failure>)
      modifies this, backend
      ensures (View(), result) == BulkIngest(old(View()), mapping, backend.outcomes)
      ensures old(HandleFits(View())) ==> HandleFits(View())
    {
      IngestFits(View(), Env());
      hide HandleFits;
      hide IngestRefusal, IngestName, IngestTexts, CatalogAccepted;
      var refusal := IngestRefusal(options);
      if refusal.Some? {
        return Err(refusal.value);
      }
      if bound.None? {
        return Err(InvalidState("No data bound for bulk ingestion"));
      }
      var batch := bound.value;
      bound := None;
      if !CatalogAccepted(options) {
        return Err(InvalidArguments);
      }
      var fields := mapping(batch);
      if fields.Err? {
        return Err(InvalidArguments);
      }
      if !connected {
        return Err(InvalidState("No connection available"));
      }
      var name := IngestName(options);
      var statements := IngestTexts(options, fields.value);
      ghost var taken := View();
      assert statements[0..] == statements;
      for k := 0 to |statements|
        invariant View().statement == taken.statement
        invariant RunAll(taken, statements, backend.outcomes) == RunAll(View(), statements[k..], backend.outcomes)
      {
        assert statements[k..][1..] == statements[k + 1..];
        var ran := QuerySql(statements[k], true);
        if ran.Err? {
          return ran;
        }
      }
      var reply := backend.Ask(Import(name, batch));
      result := if reply.failure.Some? then Err(Refused(reply.failure.value)) else Ok(Affected(reply.affected));
    }

    method Execute() returns (result: Result<Value, Failure>)
      modifies this, backend
      ensures (View(), result) == SM.Execute(old(View()), false, old(Env()))
      ensures old(HandleFits(View())) ==> HandleFits(View())
    {
      StepFits(View(), DoExecute(false), Env());
      hide HandleFits;
      hide BulkIngest, ExecuteBound, RunText;
      if IsBulkIngest(View().statement) {
        result := ExecuteBulkIngest();
        if result.Ok? {
          result := Ok(Batches([]));
        }
        return;
      }
      if sql.None? {
        return Err(InvalidState("SQL query not set"));
      }
      if bound.Some? {
        var batch := bound.value;
        bound := None;
        result := ExecuteBoundBatch(batch);
      } else {
        result := QuerySql(sql.value, false);
      }
    }

    method ExecuteUpdate() returns (result: Result<Value, Failure>)
      modifies this, backend
      ensures (View(), result) == SM.Execute(old(View()), true, old(Env()))
      ensures old(HandleFits(View())) ==> HandleFits(View())
    {
      StepFits(View(), DoExecute(true), Env());
      hide HandleFits;
      hide BulkIngest, ExecuteBound, RunText;
      if IsBulkIngest(View().statement) {
        result := ExecuteBulkIngest();
        return;
      }
      if sql.None? {
        return Err(InvalidState("SQL query not set"));
      }
      if bound.Some? {
        var batch := bound.value;
        bound := None;
        result := ExecuteBoundBatchUpdate(batch);
      } else {
        result := QuerySql(sql.value, true);
      }
    }
  }

  lemma StepFits(w: World, op: Op, driver: Driver)
    ensures HandleFits(w) ==> HandleFits(Do(w, op, driver).0)
  {
    hide Do, HandleFits;
    if HandleFits(w) { StepKeepsFit(w, op, driver); }
  }

  lemma BoundFits(w: World, batch: Batch, update: bool, driver: Driver)
    ensures HandleFits(w) ==> HandleFits(ExecuteBound(w, batch, update, driver.convert, driver.outcomes).0)
  {
    hide ExecuteBound, HandleFits;
    if HandleFits(w) { ExecuteBoundFits(w, batch, update, driver.convert, driver.outcomes); }
  }

  lemma IngestFits(w: World, driver: Driver)
    ensures HandleFits(w) ==> HandleFits(BulkIngest(w, driver.mapping, driver.outcomes).0)
  {
    hide BulkIngest;
    BulkIngestFits(w, driver.mapping, driver.outcomes);
  }

  /** Sending the rest of the slices completes what sending all of them yields. */
  predicate Continues(
    whole: (Server, Result<(int, seq<string>), string>), rest: (Server, Result<(int, seq<string>), string>),
    affected: int, batches: seq<string>)
  {
    whole.0 == rest.0 &&
    match rest.1
    case Err(message) => whole.1 == Err(message)
    case Ok(value) => whole.1 == Ok((affected + value.0, batches + value.1))
  }

  lemma NothingSentYet(whole: (Server, Result<(int, seq<string>), string>))
    ensures Continues(whole, whole, 0, [])
  {
    if whole.1.Ok? { assert [] + whole.1.value.1 == whole.1.value.1; }
  }

  lemma OneMoreSent(
    whole: (Server, Result<(int, seq<string>), string>), server: Server, handle: nat, slices: seq<seq<Row>>,
    update: bool, outcomes: Outcomes, affected: int, batches: seq<string>)
    requires slices != [] && Continues(whole, SendAll(server, handle, slices, update, outcomes), affected, batches)
    ensures var reply := outcomes(server.calls);
            var next := Call(server, ExecuteRows(handle, slices[0], update), outcomes);
            if reply.failure.Some? || !reply.sent then
              whole == (next, Err(if reply.failure.Some? then reply.failure.value else "not sent"))
            else
              Continues(whole, SendAll(next, handle, slices[1..], update, outcomes), affected + reply.affected, batches + reply.batches)
  {
    hide Call, SendAll;
    var reply := outcomes(server.calls);
    var next := Call(server, ExecuteRows(handle, slices[0], update), outcomes);
    SendAllFirst(server, handle, slices, update, outcomes, reply, next);
    if !(reply.failure.Some? || !reply.sent) {
      var rest := SendAll(next, handle, slices[1..], update, outcomes);
      if rest.1.Ok? {
        assert batches + (reply.batches + rest.1.value.1) == batches + reply.batches + rest.1.value.1;
      }
    }
  }

  lemma SendAllFirst(
    server: Server, handle: nat, slices: seq<seq<Row>>, update: bool, outcomes: Outcomes, reply: Reply, next: Server)
    requires slices != [] && reply == outcomes(server.calls)
    requires next == Call(server, ExecuteRows(handle, slices[0], update), outcomes)
    ensures SendAll(server, handle, slices, update, outcomes) ==
              if reply.failure.Some? || !reply.sent then
                (next, Err(if reply.failure.Some? then reply.failure.value else "not sent"))
              else
                var (last, rest) := SendAll(next, handle, slices[1..], update, outcomes);
                (last, if rest.Err? then rest else Ok((reply.affected + rest.value.0, reply.batches + rest.value.1)))
  {
    hide Call;
  }

  lemma AllSent(
    whole: (Server, Result<(int, seq<string>), string>), server: Server, handle: nat, slices: seq<seq<Row>>,
    update: bool, outcomes: Outcomes, affected: int, batches: seq<string>)
    requires slices == [] && Continues(whole, SendAll(server, handle, slices, update, outcomes), affected, batches)
    ensures whole == (server, Ok((affected, batches)))
  {
    assert batches + [] == batches;
  }

  lemma {:induction false} FirstErrorStops(stream: seq<Result<Batch, string>>, k: nat)
    requires k < |stream| && ReadAll(stream[..k]).Ok? && stream[k].Err?
    ensures ReadAll(stream) == Err(stream[k].error)
  {
    if k == |stream| - 1 {
    } else {
      var init := stream[..|stream| - 1];
      assert init[..k] == stream[..k];
      FirstErrorStops(init, k);
    }
  }
}
