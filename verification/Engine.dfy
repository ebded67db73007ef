/** `MemoryEngine`: every operation in front of the store. */
module Engine {
  import opened Prelude
  import opened Cells
  import opened Timestamps
  import opened Tables
  import opened Scans
  import opened Recall
  import opened Store
  import opened Audit
  import P = Protocol

  class MemoryEngine {
    const w: P.World
    const store: SqliteStore
    const audit: AuditSink

    ghost predicate Valid()
      reads this, store, audit
    {
      store.Valid() && store.sv == w.sv && audit.fails == w.fails
    }

    ghost function State(): P.State
      reads store, audit
    {
      P.State(store.State(), audit.log, audit.calls)
    }

    constructor (w: P.World, store: SqliteStore, audit: AuditSink)
      requires store.Valid() && store.sv == w.sv && audit.fails == w.fails
      ensures Valid() && this.store == store && this.audit == audit && this.w == w
    {
      this.w, this.store, this.audit := w, store, audit;
    }

    method Emit(who: string, ns: string, action: string, kind: Kind, d: Detail) returns (ok: bool)
      requires Valid()
      modifies audit
      ensures Valid() && ok == !w.fails(old(audit.calls))
      ensures State() == P.Emit(w, old(State()), who, ns, action, kind, d)
    {
      ok := audit.Record(AuditEvent(who, ns, action, kind, d, w.clock(audit.calls)));
    }

    /** Decides and logs the decision; None when the call may go on. */
    method Enforce(who: string, q: P.Request) returns (error: Option<Error>)
      requires Valid()
      modifies audit
      ensures Valid() && State() == P.EmitDecision(w, old(State()), who, q)
      ensures error == P.DecisionError(w, old(audit.calls), who, q)
    {
      var ns, name := P.NamespaceOf(q), P.ActionName(P.ActionOf(q));
      match w.decide(who, ns, P.ActionOf(q)) {
        case Allow =>
          var ok := Emit(who, ns, name, Allowed, NoDetail);
          error := if ok then None else Some(Storage);
        case Deny(reason) =>
          var ok := Emit(who, ns, name, Denied, ReasonDetail(reason));
          error := Some(if ok then PolicyDenied(reason) else Internal);
      }
    }

    /** Validation, then the decision: the common start of every operation but `audit_events`. */
    method Begin(who: string, q: P.Request) returns (error: Option<Error>)
      requires Valid()
      modifies audit
      ensures Valid()
      ensures !P.Accepted(w, q) ==> error == Some(P.Rejection(w.config, q)) && State() == old(State())
      ensures P.Accepted(w, q) ==> State() == P.EmitDecision(w, old(State()), who, q)
      ensures P.Accepted(w, q) ==>
                error == P.DecisionError(w, old(audit.calls), who, q)
    {
      if !P.Accepted(w, q) {
        return Some(P.Rejection(w.config, q));
      }
      error := Enforce(who, q);
    }

    method Finish(who: string, q: P.Request, d: Detail) returns (ok: bool)
      requires Valid()
      modifies audit
      ensures Valid() && ok == !w.fails(old(audit.calls))
      ensures State() == P.Emit(w, old(State()), who, P.NamespaceOf(q), P.OperationName(q), P.OperationKind(q), d)
    {
      ok := Emit(who, P.NamespaceOf(q), P.OperationName(q), P.OperationKind(q), d);
    }

    method Put(
      who: string, req: PutRequest, freshId: string, now: DateTime, fault: Option<PutStage>, measureFails: bool)
      returns (r: Result<Record>, ghost d: Detail)
      requires Valid()
      modifies store, audit
      ensures Valid()
      ensures (State(), ErrorOf(r)) == P.Call(w, old(State()), who, P.ReqPut(req, freshId, now, fault, measureFails), d)
      ensures r.Ok? ==> d == IdDetail(r.value.id) &&
                        r == PutDb(w.sv, old(State()).db, req, freshId, now, fault).1
    {
      var q := P.ReqPut(req, freshId, now, fault, measureFails);
      d := NoDetail;
      var error := Begin(who, q);
      if error.Some? {
        return Err(error.value), d;
      }
      r := store.Put(req, freshId, now, fault);
      if r.Ok? {
        d := IdDetail(r.value.id);
        var ok := Finish(who, q, IdDetail(r.value.id));
        r := if ok then r else Err(Storage);
      }
    }

    method Get(who: string, key: KeyRequest, readFails: bool) returns (r: Result<Record>, ghost d: Detail)
      requires Valid()
      modifies audit
      ensures Valid()
      ensures (State(), ErrorOf(r)) == P.Call(w, old(State()), who, P.ReqGet(key, readFails), d)
      ensures r.Ok? ==> d == IdDetail(r.value.id) && r == GetOutcome(old(State()).db.memories, key, readFails)
    {
      var q := P.ReqGet(key, readFails);
      d := NoDetail;
      var error := Begin(who, q);
      if error.Some? {
        return Err(error.value), d;
      }
      r := store.Get(key, readFails);
      if r.Ok? {
        d := IdDetail(r.value.id);
        var ok := Finish(who, q, IdDetail(r.value.id));
        r := if ok then r else Err(Storage);
      }
    }

    method Delete(who: string, key: KeyRequest, fault: Option<DeleteStage>) returns (r: Result<()>)
      requires Valid()
      modifies store, audit
      ensures Valid()
      ensures (State(), ErrorOf(r)) == P.Call(w, old(State()), who, P.ReqDelete(key, fault), OkDetail)
    {
      var q := P.ReqDelete(key, fault);
      var error := Begin(who, q);
      if error.Some? {
        return Err(error.value);
      }
      r := store.Delete(key, fault);
      if r.Ok? {
        var ok := Finish(who, q, OkDetail);
        r := if ok then r else Err(Storage);
      }
    }

    method RecallHits(who: string, req: RecallRequest, a: Answers, fault: Option<Error>)
      returns (r: Result<seq<Hit>>, ghost d: Detail)
      requires Valid() && Legal(w.scoring, store.State(), req, a)
      modifies audit
      ensures Valid()
      ensures (State(), ErrorOf(r)) == P.Call(w, old(State()), who, P.ReqRecall(req, fault), d)
      ensures r.Ok? ==> d == HitsDetail(|r.value|) && RecallResult(w.sv, w.scoring, old(State()).db, req, a, r)
    {
      d := NoDetail;
      var error := Begin(who, P.ReqRecall(req, fault));
      if error.Some? {
        return Err(error.value), d;
      }
      r, d := RecallAllowed(who, req, a, fault);
    }

    /** The rest of `recall` once its Allowed event is logged. */
    method RecallAllowed(who: string, req: RecallRequest, a: Answers, fault: Option<Error>)
      returns (r: Result<seq<Hit>>, ghost d: Detail)
      requires Valid() && Legal(w.scoring, store.State(), req, a)
      modifies audit
      ensures Valid()
      ensures (State(), ErrorOf(r)) == P.Continue(w, old(State()), who, P.ReqRecall(req, fault), d)
      ensures r.Ok? ==> d == HitsDetail(|r.value|) && RecallResult(w.sv, w.scoring, old(State()).db, req, a, r)
    {
      d := NoDetail;
      var hits := store.RecallHits(w.scoring, req, a, fault);
      RecallError(w, store.State(), req, a, fault, hits);
      if hits.Err? {
        return hits, d;
      }
      d := HitsDetail(|hits.value|);
      var ok := Finish(who, P.ReqRecall(req, fault), HitsDetail(|hits.value|));
      r := if ok then hits else Err(Storage);
    }

    method VectorHealth(who: string, ns: string, invalidSampleLimit: nat, order: seq<string>, readFails: bool)
      returns (r: Result<HealthReport>, ghost d: Detail)
      requires Valid() && Scan(store.memories, VectorIds(store.State(), Some(ns)), order)
      modifies audit
      ensures Valid()
      ensures (State(), ErrorOf(r)) == P.Call(w, old(State()), who, P.ReqHealth(ns, readFails), d)
      ensures r.Ok? ==> d == HealthDetail(r.value.totalRows, r.value.invalidRows)
      ensures r.Ok? ==> r.value == HealthDb(w.sv.parsers, old(State()).db, order, invalidSampleLimit)
    {
      d := NoDetail;
      var error := Begin(who, P.ReqHealth(ns, readFails));
      if error.Some? {
        return Err(error.value), d;
      }
      r := store.VectorHealthReport(Some(ns), invalidSampleLimit, order, readFails);
      if r.Ok? {
        d := HealthDetail(r.value.totalRows, r.value.invalidRows);
        var ok := Finish(who, P.ReqHealth(ns, readFails), HealthDetail(r.value.totalRows, r.value.invalidRows));
        r := if ok then r else Err(Storage);
      }
    }

    method VectorRepair(
      who: string, ns: string, issueSampleLimit: nat, apply: bool, order: seq<string>, fault: Option<RepairFault>)
      returns (r: Result<RepairReport>, ghost d: Detail)
      requires Valid() && Scan(store.memories, VectorIds(store.State(), Some(ns)), order)
      modifies store, audit
      ensures Valid()
      ensures (State(), ErrorOf(r))
           == P.Call(w, old(State()), who, P.ReqRepair(ns, issueSampleLimit, apply, order, fault), d)
      ensures r.Ok? ==> r == RepairDb(w.sv.parsers, old(State()).db, order, issueSampleLimit, apply, fault).1
    {
      d := NoDetail;
      var error := Begin(who, P.ReqRepair(ns, issueSampleLimit, apply, order, fault));
      if error.Some? {
        return Err(error.value), d;
      }
      r, d := RepairAllowed(who, ns, issueSampleLimit, apply, order, fault);
    }

    /** The rest of `vector_repair` once its Allowed event is logged. */
    method RepairAllowed(
      who: string, ns: string, issueSampleLimit: nat, apply: bool, order: seq<string>, fault: Option<RepairFault>)
      returns (r: Result<RepairReport>, ghost d: Detail)
      requires Valid() && Scan(store.memories, VectorIds(store.State(), Some(ns)), order)
      modifies store, audit
      ensures Valid()
      ensures (State(), ErrorOf(r))
           == P.Continue(w, old(State()), who, P.ReqRepair(ns, issueSampleLimit, apply, order, fault), d)
      ensures r.Ok? ==> r == RepairDb(w.sv.parsers, old(State()).db, order, issueSampleLimit, apply, fault).1
    {
      d := NoDetail;
      r := store.VectorRepair(Some(ns), issueSampleLimit, apply, order, fault);
      if r.Ok? {
        var detail := RepairDetail(apply, r.value.repairableRows, r.value.repairedRows, r.value.invalidRows);
        d := detail;
        var ok := Finish(who, P.ReqRepair(ns, issueSampleLimit, apply, order, fault), detail);
        r := if ok then r else Err(Storage);
      }
    }

    /** Lists first and logs afterwards, so the answer holds only events logged before this call. */
    method AuditEvents(who: string, ns: string, limit: nat, answer: seq<nat>, listFails: bool)
      returns (r: Result<seq<AuditEvent>>, ghost d: Detail)
      requires Valid() && LegalList(audit.log, ns, ListLimit(limit), answer)
      modifies audit
      ensures Valid()
      ensures (State(), ErrorOf(r)) == P.Call(w, old(State()), who, P.ReqAudit(ns, listFails), d)
      ensures r.Ok? ==> d == CountDetail(|r.value|, limit) && r.value == Select(old(audit.log), answer)
    {
      var q := P.ReqAudit(ns, listFails);
      d := NoDetail;
      if !P.NamespaceOk(w.config, ns) {
        return Err(Validation), d;
      }
      match w.decide(who, ns, P.ActAuditRead) {
        case Deny(reason) =>
          var ok := Emit(who, ns, "AuditRead", Denied, ReasonDetail(reason));
          return Err(if ok then PolicyDenied(reason) else Internal), d;
        case Allow =>
      }
      if listFails {
        return Err(Storage), d;
      }
      var out := audit.List(ns, limit, answer);
      d := CountDetail(|out|, limit);
      var allowed := Emit(who, ns, "AuditRead", Allowed, NoDetail);
      if !allowed {
        return Err(Storage), d;
      }
      var ok := Emit(who, ns, "audit_events", Read, CountDetail(|out|, limit));
      r := if ok then Ok(out) else Err(Storage);
    }
  }

  /** The outcome of a recall has the error of the protocol's store call. */
  lemma RecallError(
    w: P.World, db: Db, req: RecallRequest, a: Answers, fault: Option<Error>, r: Result<seq<Hit>>)
    requires Legal(w.scoring, db, req, a) && RecallOutcome(w.sv, w.scoring, db, req, a, fault, r)
    ensures P.StoreCall(w, db, P.ReqRecall(req, fault)) == (db, ErrorOf(r))
    ensures r.Ok? ==> RecallResult(w.sv, w.scoring, db, req, a, r)
  {
  }

  function ErrorOf<T>(r: Result<T>): Option<Error> {
    match r
    case Ok(_) => None
    case Err(e) => Some(e)
  }
}
