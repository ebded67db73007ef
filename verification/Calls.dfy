/** When a call of the engine succeeds, what it logs, and what a get answers after a put or a delete. */
module Calls {
  import opened Prelude
  import opened Text
  import opened FtsQuery
  import opened Floats
  import opened Timestamps
  import opened Tables
  import opened Recall
  import opened Store
  import opened Refinement
  import opened Outcomes
  import opened Isolation
  import opened Audit
  import opened Protocol
  import opened EngineTheorems

  // ----- acceptance -----

  /** The condition under which the engine accepts a get or a delete: a request that the store would not reject, whose
      id is not blank and whose texts are short enough. */
  lemma AcceptsKey(w: World, key: KeyRequest, readFails: bool, fault: Option<DeleteStage>)
    ensures var ok := && !Malformed(key) && Utf8Len(key.namespace) <= w.config.maxNamespaceBytes
                      && (key.id.Some? ==> Trim(key.id.value) != "")
                      && (key.externalId.Some? ==> Utf8Len(key.externalId.value) <= w.config.maxExternalIdBytes);
            && (Accepted(w, ReqGet(key, readFails)) <==> ok)
            && (Accepted(w, ReqDelete(key, fault)) <==> ok)
  {
  }

  /** A put: one that the store would not reject, with all texts short enough, and metadata that can be measured. */
  lemma AcceptsPut(
    w: World, put: PutRequest, freshId: string, now: DateTime, fault: Option<PutStage>, measureFails: bool)
    ensures Accepted(w, ReqPut(put, freshId, now, fault, measureFails)) <==>
              && ValidPut(put) && !measureFails && Utf8Len(put.namespace) <= w.config.maxNamespaceBytes
              && (put.externalId.Some? ==> Utf8Len(put.externalId.value) <= w.config.maxExternalIdBytes)
              && Utf8Len(put.content) <= w.config.maxContentBytes
              && Utf8Len(put.metadata.json) <= w.config.maxMetadataBytes
  {
  }

  /** A recall: one that the store would not reject, with texts and limit within the bounds, and weights that are
      finite, not negative, and whose f32 sum is above f32::EPSILON. */
  lemma AcceptsRecall(w: World, recall: RecallRequest, fault: Option<Error>)
    ensures var x, y := recall.weights.lexical, recall.weights.vector;
            Accepted(w, ReqRecall(recall, fault)) <==>
              && ValidRecall(recall) && Utf8Len(recall.namespace) <= w.config.maxNamespaceBytes
              && Utf8Len(recall.query) <= w.config.maxQueryBytes && recall.limit <= w.config.maxRecallLimit
              && x.Fin? && y.Fin? && x.r >= 0.0 && y.r >= 0.0
              && Less(Fin(1.0 / 8388608.0), w.scoring.arith.round(x.r + y.r))
  {
  }

  /** The other three, which have no other text: a namespace that is not blank and short enough. */
  lemma AcceptsNamespace(w: World, q: Request)
    requires q.ReqHealth? || q.ReqRepair? || q.ReqAudit?
    ensures Accepted(w, q) <==> Trim(q.ns) != "" && Utf8Len(q.ns) <= w.config.maxNamespaceBytes
  {
  }

  // ----- success -----

  /** A request that is not accepted changes nothing and logs nothing. It is a validation error, except for a put whose
      metadata cannot be measured and that passes every check before that: this is an internal error. */
  lemma RejectionErrors(w: World, s: State, who: string, q: Request, d: Detail)
    requires LegalRequest(s.db, q) && !Accepted(w, q)
    ensures Call(w, s, who, q, d).0 == s
    ensures Call(w, s, who, q, d).1 == Some(Validation) || Call(w, s, who, q, d).1 == Some(Internal)
    ensures Call(w, s, who, q, d).1 == Some(Internal) <==>
              && q.ReqPut? && q.measureFails && ValidPut(q.put)
              && Utf8Len(q.put.namespace) <= w.config.maxNamespaceBytes
              && (q.put.externalId.Some? ==> Utf8Len(q.put.externalId.value) <= w.config.maxExternalIdBytes)
              && Utf8Len(q.put.content) <= w.config.maxContentBytes
  {
  }

  /** A call succeeds exactly when it is accepted and allowed, its listing does not fail, the sink takes both its
      events, and its store operation succeeds. */
  lemma CallSucceedsIff(w: World, s: State, who: string, q: Request, d: Detail)
    requires LegalRequest(s.db, q)
    ensures Call(w, s, who, q, d).1.None? <==>
              && Accepted(w, q) && w.decide(who, NamespaceOf(q), ActionOf(q)) == Allow
              && (q.ReqAudit? ==> !q.listFails) && !w.fails(s.calls) && !w.fails(s.calls + 1)
              && StoreCall(w, s.db, q).1.None?
    ensures Call(w, s, who, q, d).1.None? ==>
              Call(w, s, who, q, d).0.db == StoreCall(w, s.db, q).0 && Call(w, s, who, q, d).0.calls == s.calls + 2
  {
    if Completes(w, s, who, q) {
      CommittedButReportedFailed(w, s, who, q, d);
    } else {
      IncompleteFails(w, s, who, q, d);
    }
  }

  /** When the store operation of an accepted call succeeds. */
  lemma StoreSucceedsIff(w: World, db: Db, q: Request)
    requires LegalRequest(db, q) && UniqueExternal(db.memories) && Accepted(w, q)
    ensures q.ReqGet? ==>
              (StoreCall(w, db, q).1.None? <==> !q.readFails && exists rec :: Names(db.memories, q.key, rec))
    ensures q.ReqDelete? ==>
              (StoreCall(w, db, q).1.None? <==> q.deleteFault.None? && exists rec :: Names(db.memories, q.key, rec))
    ensures q.ReqRecall? ==>
              (StoreCall(w, db, q).1.None? <==> q.recallFault.None? && !MatchFails(w.scoring.lower, q.recall.query))
    ensures q.ReqHealth? ==> (StoreCall(w, db, q).1.None? <==> !q.readFails)
    ensures q.ReqAudit? ==> StoreCall(w, db, q).1.None?
  {
    match q
    case ReqGet(key, readFails) =>
      GetMeans(db.memories, key, readFails);
      AcceptsKey(w, key, readFails, None);
    case ReqDelete(key, fault) =>
      DeleteMeans(db, key, fault);
      AcceptsKey(w, key, false, fault);
    case _ =>
  }

  // ----- the log of one call -----

  /** The names and the kind that the events of a request carry. */
  ghost predicate Named(q: Request, action: string, operation: string, kind: Kind) {
    match q
    case ReqPut(_, _, _, _, _) => action == "Put" && operation == "put" && kind == Write
    case ReqGet(_, _) => action == "Get" && operation == "get" && kind == Read
    case ReqDelete(_, _) => action == "Delete" && operation == "delete" && kind == Deleted
    case ReqRecall(_, _) => action == "Recall" && operation == "recall" && kind == Recalled
    case ReqHealth(_, _) => action == "AuditRead" && operation == "vector_health" && kind == Read
    case ReqRepair(_, _, apply, _, _) =>
      action == "Repair" && operation == "vector_repair" && kind == if apply then Write else Read
    case ReqAudit(_, _) => action == "AuditRead" && operation == "audit_events" && kind == Read
  }

  /** A successful call appends exactly two events, the permission and the operation, at the times of their two sink
      calls. */
  lemma SuccessLogs(w: World, s: State, who: string, q: Request, d: Detail, action: string, op: string, kind: Kind)
    requires LegalRequest(s.db, q) && Call(w, s, who, q, d).1.None? && Named(q, action, op, kind)
    ensures var ns := NamespaceOf(q);
            Call(w, s, who, q, d).0.log == s.log +
              [AuditEvent(who, ns, action, Allowed, NoDetail, w.clock(s.calls)),
               AuditEvent(who, ns, op, kind, d, w.clock(s.calls + 1))]
  {
    CallSucceedsIff(w, s, who, q, d);
    NamesOf(q, action, op, kind);
    var ns := NamespaceOf(q);
    var allowed := AuditEvent(who, ns, action, Allowed, NoDetail, w.clock(s.calls));
    var s1 := EmitDecision(w, s, who, q);
    assert s1 == State(s.db, s.log + [allowed], s.calls + 1);
    assert Call(w, s, who, q, d) == Continue(w, s1, who, q, d);
    assert Call(w, s, who, q, d).0.log == s.log + [allowed] + [AuditEvent(who, ns, op, kind, d, w.clock(s.calls + 1))];
  }

  lemma NamesOf(q: Request, action: string, op: string, kind: Kind)
    requires Named(q, action, op, kind)
    ensures ActionName(ActionOf(q)) == action && OperationName(q) == op && OperationKind(q) == kind
  {
    match q {
      case ReqPut(_, _, _, _, _) => case ReqGet(_, _) => case ReqDelete(_, _) => case ReqRecall(_, _) =>
      case ReqHealth(_, _) => case ReqRepair(_, _, _, _, _) => case ReqAudit(_, _) =>
    }
  }

  /** A denied call changes nothing but the log: it appends the denial with its reason and reports it, or, when the sink
      fails, appends nothing and reports an internal error. */
  lemma DenialLogs(w: World, s: State, who: string, q: Request, d: Detail, action: string, op: string, kind: Kind)
    requires LegalRequest(s.db, q) && Accepted(w, q) && Named(q, action, op, kind)
    requires w.decide(who, NamespaceOf(q), ActionOf(q)).Deny?
    ensures var reason := w.decide(who, NamespaceOf(q), ActionOf(q)).reason;
            var event := AuditEvent(who, NamespaceOf(q), action, Denied, ReasonDetail(reason), w.clock(s.calls));
            Call(w, s, who, q, d)
              == if w.fails(s.calls) then (s.(calls := s.calls + 1), Some(Internal))
                 else (s.(log := s.log + [event], calls := s.calls + 1), Some(PolicyDenied(reason)))
  {
    NamesOf(q, action, op, kind);
  }

  /** What the error of an accepted and allowed call says: a failing listing and a lost event are storage errors, and
      the store's own error is passed on. */
  lemma AllowedErrors(w: World, s: State, who: string, q: Request, d: Detail)
    requires LegalRequest(s.db, q) && Accepted(w, q) && w.decide(who, NamespaceOf(q), ActionOf(q)) == Allow
    ensures Call(w, s, who, q, d).1 ==
              if (q.ReqAudit? && q.listFails) || w.fails(s.calls) then Some(Storage)
              else if StoreCall(w, s.db, q).1.Some? then StoreCall(w, s.db, q).1
              else if w.fails(s.calls + 1) then Some(Storage)
              else None
  {
    var s1 := EmitDecision(w, s, who, q);
    EmitDecisionAppends(w, s, who, q);
    if !(q.ReqAudit? && q.listFails) && !w.fails(s.calls) {
      assert Call(w, s, who, q, d) == Continue(w, s1, who, q, d);
    }
  }

  // ----- a get after a put or a delete -----

  /** The engine lets this request go through at this state: it accepts it, the policy allows it, and the sink takes its
      two events. */
  ghost predicate Passes(w: World, s: State, who: string, q: Request) {
    && Accepted(w, q) && w.decide(who, NamespaceOf(q), ActionOf(q)) == Allow
    && !w.fails(s.calls) && !w.fails(s.calls + 1)
  }

  /**
   * A put that the engine lets through, that meets no failing statement and draws an unused id succeeds; and what it
   * answers, a get that the policy allows then answers, by id and by external id, when the sink takes its events. The
   * get by external id is accepted because the put was, the one by id when the id is not blank.
   */
  lemma PutThenGetCalls(
    w: World, s: State, who: string, put: PutRequest, freshId: string, now: DateTime, d: Detail,
    reader: string, key: KeyRequest, d': Detail)
    requires UniqueExternal(s.db.memories) && Passes(w, s, who, ReqPut(put, freshId, now, None, false))
    requires freshId !in s.db.memories
    requires var r := PutDb(w.sv, s.db, put, freshId, now, None).1;
             || (r.Ok? && key == KeyRequest(put.namespace, Some(r.value.id), None) && Trim(r.value.id) != "")
             || (put.externalId.Some? && key == KeyRequest(put.namespace, None, put.externalId))
    requires w.decide(reader, put.namespace, ActGet) == Allow && !w.fails(s.calls + 2) && !w.fails(s.calls + 3)
    ensures var (s', error) := Call(w, s, who, ReqPut(put, freshId, now, None, false), d);
            var r := PutDb(w.sv, s.db, put, freshId, now, None).1;
            && error.None? && r.Ok?
            && Accepted(w, ReqGet(key, false)) && Call(w, s', reader, ReqGet(key, false), d').1.None?
            && GetOutcome(s'.db.memories, key, false) == r
  {
    PutCall(w, s, who, put, freshId, now, d);
    StoredPutThenGet(w.sv, s.db, put, freshId, now);
    AcceptsPut(w, put, freshId, now, None, false);
    AcceptsKey(w, key, false, None);
    var s' := Call(w, s, who, ReqPut(put, freshId, now, None, false), d).0;
    CallSucceedsIff(w, s', reader, ReqGet(key, false), d');
  }

  lemma PutCall(w: World, s: State, who: string, put: PutRequest, freshId: string, now: DateTime, d: Detail)
    requires Passes(w, s, who, ReqPut(put, freshId, now, None, false)) && freshId !in s.db.memories
    ensures var (s', error) := Call(w, s, who, ReqPut(put, freshId, now, None, false), d);
            var (db', r) := PutDb(w.sv, s.db, put, freshId, now, None);
            error.None? && r.Ok? && s'.db == db' && s'.calls == s.calls + 2
  {
    PutSucceedsIff(w.sv, s.db, put, freshId, now, None);
    AcceptsPut(w, put, freshId, now, None, false);
    CallSucceedsIff(w, s, who, ReqPut(put, freshId, now, None, false), d);
  }

  /** A delete that the engine lets through, that names a record and meets no failing statement succeeds, and a get of
      the same key that the policy allows is then accepted and finds nothing. */
  lemma DeleteThenGetCalls(w: World, s: State, who: string, key: KeyRequest, d: Detail, reader: string, d': Detail)
    requires UniqueExternal(s.db.memories) && Passes(w, s, who, ReqDelete(key, None))
    requires exists rec :: Names(s.db.memories, key, rec)
    requires w.decide(reader, key.namespace, ActGet) == Allow && !w.fails(s.calls + 2)
    ensures var (s', error) := Call(w, s, who, ReqDelete(key, None), d);
            && error.None?
            && Accepted(w, ReqGet(key, false)) && Call(w, s', reader, ReqGet(key, false), d').1 == Some(NotFound)
  {
    var s' := Call(w, s, who, ReqDelete(key, None), d).0;
    StoreSucceedsIff(w, s.db, ReqDelete(key, None));
    CallSucceedsIff(w, s, who, ReqDelete(key, None), d);
    StoredDeleteThenGet(s.db, key, key);
    AcceptsKey(w, key, false, None);
    AllowedErrors(w, s', reader, ReqGet(key, false), d');
  }

  /** Whatever a get answers, it answers after every run of requests for other namespaces: what was put is found until
      its own namespace is written. */
  lemma AnswerSurvives(w: World, s: State, calls: seq<Entry>, key: KeyRequest, readFails: bool)
    requires TextIndexed(s.db) && LegalCalls(w, s, calls)
    requires forall i | 0 <= i < |calls| :: NamespaceOf(calls[i].q) != key.namespace
    ensures GetOutcome(RunCalls(w, s, calls).db.memories, key, readFails) == GetOutcome(s.db.memories, key, readFails)
  {
    RunIsolation(w, s, calls, key.namespace);
    GetIsLocal(RunCalls(w, s, calls).db, s.db, key);
  }
}
