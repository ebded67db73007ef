/** What holds of the audit log and the store over every run of the engine, with the sink failing at any call. */
module EngineTheorems {
  import opened Prelude
  import opened Floats
  import opened Similarity
  import opened Tables
  import opened Scans
  import opened Recall
  import opened Ranking
  import opened Store
  import opened FtsQuery
  import opened Refinement
  import opened RecallTheorems
  import opened Isolation
  import opened Audit
  import opened Protocol

  datatype Entry = Entry(who: string, q: Request, d: Detail)

  ghost predicate LegalCalls(w: World, s: State, calls: seq<Entry>)
    decreases |calls|
  {
    calls == [] ||
    (LegalRequest(s.db, calls[0].q) &&
     LegalCalls(w, Call(w, s, calls[0].who, calls[0].q, calls[0].d).0, calls[1..]))
  }

  ghost function RunCalls(w: World, s: State, calls: seq<Entry>): State
    requires LegalCalls(w, s, calls)
    decreases |calls|
  {
    if calls == [] then s else RunCalls(w, Call(w, s, calls[0].who, calls[0].q, calls[0].d).0, calls[1..])
  }

  // ----- one call -----

  lemma EmitDecisionAppends(w: World, s: State, who: string, q: Request)
    ensures var s1 := EmitDecision(w, s, who, q);
            && s1.db == s.db && s1.calls == s.calls + 1
            && (w.fails(s.calls) ==> s1.log == s.log)
            && (!w.fails(s.calls) ==> |s1.log| == |s.log| + 1 && s1.log[..|s.log|] == s.log &&
                                       IsDecisionOf(w, s1.log[|s.log|], who, q))
  {
  }

  lemma EmitAppends(w: World, s: State, who: string, ns: string, action: string, kind: Kind, d: Detail)
    ensures var s1 := Emit(w, s, who, ns, action, kind, d);
            && s1.db == s.db
            && (if w.fails(s.calls) then s1.log == s.log
                else |s1.log| == |s.log| + 1 && s1.log[..|s.log|] == s.log &&
                     s1.log[|s.log|] == Event(w, s, who, ns, action, kind, d))
  {
  }

  /** The state after the store call, and after the operation event. */
  ghost function Stored(w: World, s: State, who: string, q: Request): State
    requires LegalRequest(s.db, q)
  {
    EmitDecision(w, s, who, q).(db := StoreCall(w, s.db, q).0)
  }

  ghost function Finished(w: World, s: State, who: string, q: Request, d: Detail): State
    requires LegalRequest(s.db, q)
  {
    Emit(w, Stored(w, s, who, q), who, NamespaceOf(q), OperationName(q), OperationKind(q), d)
  }

  /** Where a call can stop: before anything, after its decision, after the store call, or at the end. */
  lemma CallStops(w: World, s: State, who: string, q: Request, d: Detail)
    requires LegalRequest(s.db, q)
    ensures var (s', error) := Call(w, s, who, q, d);
            || (s' == s && error.Some?)
            || (s' == EmitDecision(w, s, who, q) && error.Some?)
            || (Accepted(w, q) && w.decide(who, NamespaceOf(q), ActionOf(q)) == Allow && !w.fails(s.calls) &&
                ((s' == Stored(w, s, who, q) && error.Some?) ||
                 (s' == Finished(w, s, who, q, d) && (error.Some? <==> w.fails(s.calls + 1)))))
  {
    var s1 := EmitDecision(w, s, who, q);
    assert s1.calls == s.calls + 1 && s1.db == s.db;
    if Accepted(w, q) && !ListFailed(w, who, q) && DecisionError(w, s.calls, who, q).None? {
      assert Call(w, s, who, q, d) == Continue(w, s1, who, q, d);
      ContinueStops(w, s1, who, q, d);
    }
  }

  lemma ContinueStops(w: World, s: State, who: string, q: Request, d: Detail)
    requires LegalRequest(s.db, q)
    ensures var (s', error) := Continue(w, s, who, q, d);
            var stored := s.(db := StoreCall(w, s.db, q).0);
            || (s' == stored && error.Some?)
            || (s' == Emit(w, stored, who, NamespaceOf(q), OperationName(q), OperationKind(q), d) &&
                (error.Some? <==> w.fails(s.calls)))
  {
  }

  /** The log after the operation event, or after its loss. */
  lemma FinishedLog(w: World, s: State, who: string, q: Request, d: Detail)
    requires LegalRequest(s.db, q) && !w.fails(s.calls)
    ensures var s3 := Finished(w, s, who, q, d);
            && s3.db == StoreCall(w, s.db, q).0
            && |s3.log| == |s.log| + (if w.fails(s.calls + 1) then 1 else 2)
            && s3.log[..|s.log|] == s.log && IsDecisionOf(w, s3.log[|s.log|], who, q)
            && (!w.fails(s.calls + 1) ==> IsOperationOf(s3.log[|s.log| + 1], who, q, d))
  {
    EmitDecisionAppends(w, s, who, q);
    var s2 := Stored(w, s, who, q);
    EmitAppends(w, s2, who, NamespaceOf(q), OperationName(q), OperationKind(q), d);
    var s3 := Finished(w, s, who, q, d);
    assert s3.log[..|s2.log|][..|s.log|] == s3.log[..|s.log|];
    assert s3.log[|s.log|] == s3.log[..|s2.log|][|s.log|];
  }

  /** A call appends nothing, its decision, or its decision and its operation event, all for its own principal and
      namespace; the log before it is never touched. */
  lemma CallAppends(w: World, s: State, who: string, q: Request, d: Detail)
    requires LegalRequest(s.db, q)
    ensures Appends(w, s, Call(w, s, who, q, d).0, who, q, d)
  {
    CallStops(w, s, who, q, d);
    EmitDecisionAppends(w, s, who, q);
    if !w.fails(s.calls) {
      FinishedLog(w, s, who, q, d);
    }
  }

  /** A call succeeds exactly when its decision and its operation event are both in the log. */
  lemma SuccessIsLogged(w: World, s: State, who: string, q: Request, d: Detail)
    requires LegalRequest(s.db, q)
    ensures Call(w, s, who, q, d).1.None? <==> |Call(w, s, who, q, d).0.log| == |s.log| + 2
  {
    CallStops(w, s, who, q, d);
    EmitDecisionAppends(w, s, who, q);
    if !w.fails(s.calls) {
      FinishedLog(w, s, who, q, d);
    }
  }

  /** A call leaves no event exactly when it is rejected by validation, its audit listing fails, or the sink fails on
      its decision. */
  lemma SilentIff(w: World, s: State, who: string, q: Request, d: Detail)
    requires LegalRequest(s.db, q)
    ensures Call(w, s, who, q, d).0.log == s.log <==>
              !Accepted(w, q) || ListFailed(w, who, q) || w.fails(s.calls)
  {
    EmitDecisionAppends(w, s, who, q);
  }

  /** The tables change only under an Allow decision whose Allowed event is already in the log. */
  lemma ChangeIsAllowedAndLogged(w: World, s: State, who: string, q: Request, d: Detail)
    requires LegalRequest(s.db, q) && Call(w, s, who, q, d).0.db != s.db
    ensures Accepted(w, q) && w.decide(who, NamespaceOf(q), ActionOf(q)) == Allow
    ensures var s' := Call(w, s, who, q, d).0;
            && |s'.log| > |s.log| && s'.log[|s.log|].kind == Allowed && IsDecisionOf(w, s'.log[|s.log|], who, q)
            && s'.db == StoreCall(w, s.db, q).0
    ensures q.ReqPut? || q.ReqDelete? || (q.ReqRepair? && q.apply)
  {
    CallStops(w, s, who, q, d);
    EmitDecisionAppends(w, s, who, q);
    FinishedLog(w, s, who, q, d);
    WhoWrites(w, s.db, q);
  }

  lemma WhoWrites(w: World, db: Db, q: Request)
    requires LegalRequest(db, q)
    ensures StoreCall(w, db, q).0 != db ==> q.ReqPut? || q.ReqDelete? || (q.ReqRepair? && q.apply)
  {
  }

  /** A call whose store operation is completed: accepted, allowed, its permission logged, and without an error of the
      store. */
  ghost predicate Completes(w: World, s: State, who: string, q: Request)
    requires LegalRequest(s.db, q)
  {
    && Accepted(w, q) && w.decide(who, NamespaceOf(q), ActionOf(q)) == Allow && !w.fails(s.calls)
    && !ListFailed(w, who, q) && StoreCall(w, s.db, q).1.None?
  }

  /**
   * A store call that went through is reported as an error exactly when the sink fails on the operation event,
   * the second sink call of the operation: the tables have changed, the log says Allowed and no more.
   */
  lemma CommittedButReportedFailed(w: World, s: State, who: string, q: Request, d: Detail)
    requires LegalRequest(s.db, q) && Completes(w, s, who, q)
    ensures Call(w, s, who, q, d).0.db == StoreCall(w, s.db, q).0
    ensures Call(w, s, who, q, d).1.Some? <==> w.fails(s.calls + 1)
    ensures w.fails(s.calls + 1) ==> |Call(w, s, who, q, d).0.log| == |s.log| + 1
  {
    assert Call(w, s, who, q, d).0 == Finished(w, s, who, q, d);
    FinishedLog(w, s, who, q, d);
  }

  // ----- the log over runs -----

  lemma RequestIsAuthorised(a: AuditEvent, e: AuditEvent, w: World, who: string, q: Request, d: Detail)
    requires IsDecisionOf(w, a, who, q) && a.kind == Allowed && IsOperationOf(e, who, q, d)
    ensures Authorises(a, e) && IsOperation(e)
  {
    match q {
      case ReqPut(_, _, _, _, _) => case ReqGet(_, _) => case ReqDelete(_, _) => case ReqRecall(_, _) =>
      case ReqHealth(_, _) => case ReqRepair(_, _, _, _, _) => case ReqAudit(_, _) =>
    }
  }

  lemma AppendKeepsLog(w: World, s: State, s': State, who: string, q: Request, d: Detail)
    requires WellFormed(s.log) && Truthful(w, s.log) && Appends(w, s, s', who, q, d)
    ensures WellFormed(s'.log) && Truthful(w, s'.log)
  {
    var n := |s.log|;
    assert forall i | 0 <= i < n :: s'.log[i] == s.log[i];
    if |s'.log| == n + 2 {
      RequestIsAuthorised(s'.log[n], s'.log[n + 1], w, who, q, d);
    }
    forall i | 0 <= i < |s'.log|
      ensures IsOperation(s'.log[i]) ==> i > 0 && Authorises(s'.log[i - 1], s'.log[i])
      ensures Says(w, s'.log[i])
    {
      if i < n {
        assert Says(w, s.log[i]);
      }
    }
  }

  /**
   * Over every run, with the sink failing at any call: the log only grows, every operation event directly follows
   * the Allowed event of its own request, and decision events say what the policy says.
   */
  lemma {:induction false} RunKeepsLog(w: World, s: State, calls: seq<Entry>)
    requires WellFormed(s.log) && Truthful(w, s.log) && LegalCalls(w, s, calls)
    ensures var s' := RunCalls(w, s, calls);
            WellFormed(s'.log) && Truthful(w, s'.log) && |s.log| <= |s'.log| && s'.log[..|s.log|] == s.log
    decreases |calls|
  {
    if calls != [] {
      var Entry(who, q, d) := calls[0];
      var s1 := Call(w, s, who, q, d).0;
      CallAppends(w, s, who, q, d);
      AppendKeepsLog(w, s, s1, who, q, d);
      RunKeepsLog(w, s1, calls[1..]);
      var s' := RunCalls(w, s, calls);
      assert s'.log[..|s.log|] == s'.log[..|s1.log|][..|s.log|];
    }
  }

  /** How many calls of a run get as far as logging their decision, and how many of them succeed. */
  ghost function Heard(w: World, s: State, calls: seq<Entry>): nat
    requires LegalCalls(w, s, calls)
    decreases |calls|
  {
    if calls == [] then 0
    else
      var Entry(who, q, d) := calls[0];
      var silent := !Accepted(w, q) || ListFailed(w, who, q) || w.fails(s.calls);
      (if silent then 0 else 1) + Heard(w, Call(w, s, who, q, d).0, calls[1..])
  }

  ghost function Succeeded(w: World, s: State, calls: seq<Entry>): nat
    requires LegalCalls(w, s, calls)
    decreases |calls|
  {
    if calls == [] then 0
    else
      var Entry(who, q, d) := calls[0];
      (if Call(w, s, who, q, d).1.None? then 1 else 0) + Succeeded(w, Call(w, s, who, q, d).0, calls[1..])
  }

  /**
   * The log accounts for every call of a run: one decision event for each call that is accepted, whose listing does
   * not fail and on whose decision the sink does not fail, and one operation event for each call that succeeds.
   */
  lemma {:induction false} RunCountsEvents(w: World, s: State, calls: seq<Entry>)
    requires LegalCalls(w, s, calls)
    ensures |RunCalls(w, s, calls).log| == |s.log| + Heard(w, s, calls) + Succeeded(w, s, calls)
    decreases |calls|
  {
    if calls != [] {
      var Entry(who, q, d) := calls[0];
      SilentIff(w, s, who, q, d);
      SuccessIsLogged(w, s, who, q, d);
      CallAppends(w, s, who, q, d);
      var s1 := Call(w, s, who, q, d).0;
      assert |s1.log| == |s.log| ==> s1.log == s1.log[..|s.log|];
      RunCountsEvents(w, s1, calls[1..]);
    }
  }

  /** How many calls of a run complete their store operation, and how many of these lose their operation event. */
  ghost function Completed(w: World, s: State, calls: seq<Entry>): nat
    requires LegalCalls(w, s, calls)
    decreases |calls|
  {
    if calls == [] then 0
    else
      var Entry(who, q, d) := calls[0];
      (if Completes(w, s, who, q) then 1 else 0) + Completed(w, Call(w, s, who, q, d).0, calls[1..])
  }

  ghost function Lost(w: World, s: State, calls: seq<Entry>): nat
    requires LegalCalls(w, s, calls)
    decreases |calls|
  {
    if calls == [] then 0
    else
      var Entry(who, q, d) := calls[0];
      (if Completes(w, s, who, q) && w.fails(s.calls + 1) then 1 else 0) +
      Lost(w, Call(w, s, who, q, d).0, calls[1..])
  }

  /** Over every run, the completed store operations are those reported as a success and those whose operation event the
      sink lost: no other completed operation is reported as an error, and none that is not completed as a success. */
  lemma {:induction false} RunCountsLosses(w: World, s: State, calls: seq<Entry>)
    requires LegalCalls(w, s, calls)
    ensures Completed(w, s, calls) == Succeeded(w, s, calls) + Lost(w, s, calls)
    decreases |calls|
  {
    if calls != [] {
      var Entry(who, q, d) := calls[0];
      if Completes(w, s, who, q) {
        CommittedButReportedFailed(w, s, who, q, d);
      } else {
        IncompleteFails(w, s, who, q, d);
      }
      RunCountsLosses(w, Call(w, s, who, q, d).0, calls[1..]);
    }
  }

  lemma IncompleteFails(w: World, s: State, who: string, q: Request, d: Detail)
    requires LegalRequest(s.db, q) && !Completes(w, s, who, q)
    ensures Call(w, s, who, q, d).1.Some?
  {
  }

  // ----- the store over runs -----

  /** A call that reaches a store operation which may write. */
  ghost predicate Performs(w: World, s: State, who: string, q: Request) {
    && Accepted(w, q) && w.decide(who, NamespaceOf(q), ActionOf(q)) == Allow && !w.fails(s.calls)
    && (q.ReqPut? || q.ReqDelete? || q.ReqRepair?)
  }

  function OpFor(q: Request): Op
    requires q.ReqPut? || q.ReqDelete? || q.ReqRepair?
  {
    match q
    case ReqPut(put, freshId, now, fault, _) => OpPut(put, freshId, now, fault)
    case ReqDelete(key, fault) => OpDelete(key, fault)
    case ReqRepair(ns, limit, apply, order, fault) => OpRepair(Some(ns), limit, apply, order, fault)
  }

  /** The puts, deletes and repairs that were accepted, allowed, and had their Allowed event logged. */
  ghost function OpsOf(w: World, s: State, calls: seq<Entry>): seq<Op>
    requires LegalCalls(w, s, calls)
    decreases |calls|
  {
    if calls == [] then []
    else
      var Entry(who, q, d) := calls[0];
      (if Performs(w, s, who, q) then [OpFor(q)] else []) + OpsOf(w, Call(w, s, who, q, d).0, calls[1..])
  }

  lemma StoreCallIsStep(w: World, db: Db, q: Request)
    requires LegalRequest(db, q)
    ensures if q.ReqPut? || q.ReqDelete? || q.ReqRepair? then
              LegalOp(db, OpFor(q)) && StoreCall(w, db, q).0 == Step(w.sv, db, OpFor(q))
            else StoreCall(w, db, q).0 == db
  {
  }

  /** A call that gets past its decision leaves the tables of its store call; any other leaves them alone. */
  lemma CallTables(w: World, s: State, who: string, q: Request, d: Detail)
    requires LegalRequest(s.db, q)
    ensures Call(w, s, who, q, d).0.db ==
            if Accepted(w, q) && w.decide(who, NamespaceOf(q), ActionOf(q)) == Allow && !w.fails(s.calls) &&
               !ListFailed(w, who, q)
            then StoreCall(w, s.db, q).0 else s.db
  {
    EmitDecisionAppends(w, s, who, q);
  }

  /** A call does to the tables what its store operation does, or nothing. */
  lemma CallIsStep(w: World, s: State, who: string, q: Request, d: Detail)
    requires LegalRequest(s.db, q)
    ensures Performs(w, s, who, q) ==> LegalOp(s.db, OpFor(q))
    ensures Call(w, s, who, q, d).0.db == if Performs(w, s, who, q) then Step(w.sv, s.db, OpFor(q)) else s.db
  {
    CallTables(w, s, who, q, d);
    StoreCallIsStep(w, s.db, q);
  }

  /** The tables after a run of the engine are those of a serial run of the store operations it let through. */
  lemma {:induction false} RunIsSerial(w: World, s: State, calls: seq<Entry>)
    requires LegalCalls(w, s, calls)
    ensures LegalRun(w.sv, s.db, OpsOf(w, s, calls))
    ensures RunCalls(w, s, calls).db == Run(w.sv, s.db, OpsOf(w, s, calls))
    decreases |calls|
  {
    if calls != [] {
      var Entry(who, q, d) := calls[0];
      var s1 := Call(w, s, who, q, d).0;
      CallIsStep(w, s, who, q, d);
      RunIsSerial(w, s1, calls[1..]);
      var rest := OpsOf(w, s1, calls[1..]);
      if Performs(w, s, who, q) {
        assert OpsOf(w, s, calls) == [OpFor(q)] + rest && ([OpFor(q)] + rest)[1..] == rest;
      } else {
        assert OpsOf(w, s, calls) == rest;
      }
    }
  }

  /**
   * After every run of the engine over an empty store, with the sink and the store failing at any call, a recall that
   * the engine accepts, of up to 512 hits (its default is 128), fails exactly when FTS5 cannot read its MATCH string.
   * Otherwise it returns min(limit, records of the namespace) distinct records, as the map machine holds them after the
   * operations that were let through.
   */
  lemma RecallAfterEngineRun(
    w: World, dim: nat, s: State, calls: seq<Entry>, req: RecallRequest, a: Answers, r: Result<seq<Hit>>)
    requires ScorableEmbedder(w.scoring.arith.round, w.sv.embed, dim) && Ieee(w.scoring.arith)
    requires s.db == EMPTY && LegalCalls(w, s, calls)
    requires RecallOk(w.scoring.arith.round, w.config, req) && req.limit <= 512
    requires var db := RunCalls(w, s, calls).db;
             Legal(w.scoring, db, req, a) && RecallResult(w.sv, w.scoring, db, req, a, r)
    ensures r.Err? <==> MatchFails(w.scoring.lower, req.query)
    ensures var records := MapRun(w.sv, map[], OpsOf(w, s, calls));
            r.Ok? ==> && DistinctRecords(records, req.namespace, r.value)
                      && |r.value| == Min(req.limit, |NamespaceIds(records, req.namespace)|)
  {
    RunIsSerial(w, s, calls);
    AcceptedRecall(w.scoring.arith.round, w.config, req);
    RecallAfterRun(w.sv, w.scoring, dim, OpsOf(w, s, calls), RunCalls(w, s, calls).db, req, a, r);
  }

  /** The store refines the plain map of records over every run of the engine: the memory table is that of the map
      machine after the operations that were let through, and the index tables agree with it. */
  lemma RunKeepsIndex(w: World, dim: nat, s: State, calls: seq<Entry>)
    requires FixedEmbedder(w.sv.embed, dim) && Indexed(w.sv, s.db) && LegalCalls(w, s, calls)
    ensures Indexed(w.sv, RunCalls(w, s, calls).db)
    ensures RunCalls(w, s, calls).db.memories == MapRun(w.sv, s.db.memories, OpsOf(w, s, calls))
  {
    RunIsSerial(w, s, calls);
    RunRefinesMap(w.sv, dim, s.db, OpsOf(w, s, calls));
  }

  /** Where nothing is allowed, nothing changes: a run of requests the policy denies leaves the tables alone. */
  lemma {:induction false} DeniedRunChangesNothing(w: World, s: State, calls: seq<Entry>)
    requires LegalCalls(w, s, calls)
    requires forall i | 0 <= i < |calls| ::
               w.decide(calls[i].who, NamespaceOf(calls[i].q), ActionOf(calls[i].q)).Deny?
    ensures RunCalls(w, s, calls).db == s.db
    decreases |calls|
  {
    if calls != [] {
      var Entry(who, q, d) := calls[0];
      if Call(w, s, who, q, d).0.db != s.db {
        ChangeIsAllowedAndLogged(w, s, who, q, d);
      }
      DeniedRunChangesNothing(w, Call(w, s, who, q, d).0, calls[1..]);
    }
  }

  /** A recall the engine accepts is one the store accepts, with weights that never give a NaN score. */
  lemma AcceptedRecall(round: real -> Float, c: Config, req: RecallRequest)
    requires RecallOk(round, c, req)
    ensures ValidRecall(req) && ValidWeights(round, req.weights)
    ensures c == DEFAULT_CONFIG ==> req.limit <= 128
  {
  }

  lemma CallFrame(w: World, s: State, who: string, q: Request, d: Detail, other: string)
    requires TextIndexed(s.db) && LegalRequest(s.db, q) && NamespaceOf(q) != other
    ensures Slice(Call(w, s, who, q, d).0.db, other) == Slice(s.db, other)
    ensures TextIndexed(Call(w, s, who, q, d).0.db)
  {
    if Call(w, s, who, q, d).0.db != s.db {
      ChangeIsAllowedAndLogged(w, s, who, q, d);
      match q {
        case ReqPut(put, freshId, now, fault, _) => PutFrame(w.sv, s.db, put, freshId, now, fault, other);
        case ReqDelete(key, fault) => DeleteFrame(s.db, key, fault, other);
        case ReqRepair(ns, limit, apply, order, fault) =>
          RepairFrame(w.sv.parsers, s.db, ns, order, limit, apply, fault, other);
      }
    }
  }

  /** Over every run of the engine, requests for other namespaces leave a namespace exactly as it is. */
  lemma {:induction false} RunIsolation(w: World, s: State, calls: seq<Entry>, other: string)
    requires TextIndexed(s.db) && LegalCalls(w, s, calls)
    requires forall i | 0 <= i < |calls| :: NamespaceOf(calls[i].q) != other
    ensures Slice(RunCalls(w, s, calls).db, other) == Slice(s.db, other)
    ensures TextIndexed(RunCalls(w, s, calls).db)
    decreases |calls|
  {
    if calls != [] {
      var Entry(who, q, d) := calls[0];
      CallFrame(w, s, who, q, d, other);
      RunIsolation(w, Call(w, s, who, q, d).0, calls[1..], other);
    }
  }
}
